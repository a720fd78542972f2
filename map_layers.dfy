/**
 * The layer panel of the interactive map: the configured data layers, the
 * switch that turns one on or off, and the count of active layers.
 */
module MapLayers {
  import opened Seqs

  datatype LayerConfig = LayerConfig(
    id: string,
    name: string,
    description: string,
    enabled: bool,
    color: string)

  /** The layers the map starts with: population density and priority areas on, the others off. */
  function InitialLayers(): (layers: seq<LayerConfig>)
  {
    [
      LayerConfig("densidade", "Densidade Populacional",
        "Concentração de habitantes por área", true, "#0ea5e9"),
      LayerConfig("infraestrutura", "Infraestrutura",
        "Redes de água, esgoto e energia", false, "#22c55e"),
      LayerConfig("prioritarias", "Áreas Prioritárias",
        "Regiões de intervenção urgente", true, "#ef4444"),
      LayerConfig("transporte", "Transporte Público",
        "Linhas de ônibus e pontos de parada", false, "#8b5cf6")
    ]
  }

  /** `toggleLayer`: the new layer list, with `enabled` flipped on every layer whose id is `id`. */
  function ToggleLayer(layers: seq<LayerConfig>, id: string): (r: seq<LayerConfig>)
    ensures |r| == |layers|
    ensures forall k :: 0 <= k < |layers| && layers[k].id != id ==> r[k] == layers[k]
    ensures forall k :: 0 <= k < |layers| && layers[k].id == id ==>
      r[k].enabled == !layers[k].enabled && r[k].(enabled := layers[k].enabled) == layers[k]
  {
    if layers == [] then []
    else
      [if layers[0].id == id then layers[0].(enabled := !layers[0].enabled) else layers[0]]
      + ToggleLayer(layers[1..], id)
  }

  /** Toggling the same layer twice restores the list. */
  lemma ToggleTwiceRestores(layers: seq<LayerConfig>, id: string)
    ensures ToggleLayer(ToggleLayer(layers, id), id) == layers
  {
    var once := ToggleLayer(layers, id);
    var twice := ToggleLayer(once, id);
    forall k | 0 <= k < |layers| ensures twice[k] == layers[k] {
      if layers[k].id == id {
        assert once[k].id == id;
      }
    }
  }

  /** Toggling an id that no layer has leaves the list as it is. */
  lemma ToggleAbsentUnchanged(layers: seq<LayerConfig>, id: string)
    requires forall k :: 0 <= k < |layers| ==> layers[k].id != id
    ensures ToggleLayer(layers, id) == layers
  {
  }

  /** `activeLayersCount`: how many layers are switched on. */
  function ActiveLayersCount(layers: seq<LayerConfig>): (n: nat)
    ensures n <= |layers|
  {
    |Filter(layers, (l: LayerConfig) => l.enabled)|
  }

  /** The positions of the enabled layers. */
  ghost function EnabledPositions(layers: seq<LayerConfig>): (positions: set<nat>)
  {
    set k: nat | k < |layers| && layers[k].enabled
  }

  /** The active count is the number of positions holding an enabled layer. */
  lemma {:induction false} ActiveCountIsEnabledPositions(layers: seq<LayerConfig>)
    ensures ActiveLayersCount(layers) == |EnabledPositions(layers)|
  {
    if layers != [] {
      var init, last := layers[..|layers| - 1], layers[|layers| - 1];
      assert layers == init + [last];
      ActiveCountIsEnabledPositions(init);
      FilterAppend(init, [last], (l: LayerConfig) => l.enabled);
      EnabledPositionsSnoc(init, last);
    }
  }

  /** Appending a layer adds its position to the enabled ones exactly when it is on. */
  lemma EnabledPositionsSnoc(init: seq<LayerConfig>, last: LayerConfig)
    ensures |EnabledPositions(init + [last])| == |EnabledPositions(init)| + (if last.enabled then 1 else 0)
  {
    var n := |init|;
    var layers := init + [last];
    var before, after := EnabledPositions(init), EnabledPositions(layers);
    var extra: set<nat> := if last.enabled then {n} else {};
    forall k | k in after ensures k in before + extra {
      if k < n {
        assert layers[k] == init[k];
      }
    }
    forall k | k in before + extra ensures k in after {
      if k < n {
        assert layers[k] == init[k];
      }
    }
    assert after == before + extra;
    assert n !in before;
  }

  /** Toggling a layer whose id is unique switches the active count by one, up or down. */
  lemma {:induction false} ToggleChangesCount(layers: seq<LayerConfig>, k: nat)
    requires k < |layers|
    requires forall j :: 0 <= j < |layers| && j != k ==> layers[j].id != layers[k].id
    ensures ActiveLayersCount(ToggleLayer(layers, layers[k].id))
      == if layers[k].enabled then ActiveLayersCount(layers) - 1 else ActiveLayersCount(layers) + 1
  {
    var id := layers[k].id;
    var r := ToggleLayer(layers, id);
    assert r[1..] == ToggleLayer(layers[1..], id);
    if k == 0 {
      ToggleAbsentUnchanged(layers[1..], id);
    } else {
      ToggleChangesCount(layers[1..], k - 1);
      assert r[0] == layers[0];
    }
  }

  /** The map starts with four layers, the first and the third of them on: two active. */
  lemma InitialConfiguration()
    ensures |InitialLayers()| == 4
    ensures InitialLayers()[0].id == "densidade" && InitialLayers()[0].enabled
    ensures InitialLayers()[1].id == "infraestrutura" && !InitialLayers()[1].enabled
    ensures InitialLayers()[2].id == "prioritarias" && InitialLayers()[2].enabled
    ensures InitialLayers()[3].id == "transporte" && !InitialLayers()[3].enabled
    ensures ActiveLayersCount(InitialLayers()) == 2
  {
    var ls := InitialLayers();
    var f := (l: LayerConfig) => l.enabled;
    assert ls == [ls[0]] + [ls[1]] + [ls[2]] + [ls[3]];
    FilterAppend([ls[0]] + [ls[1]] + [ls[2]], [ls[3]], f);
    FilterAppend([ls[0]] + [ls[1]], [ls[2]], f);
    FilterAppend([ls[0]], [ls[1]], f);
  }
}
