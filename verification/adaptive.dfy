/**
  `generator/adaptive.py`: the weight table the adaptive weighter hands
  to the synthesiser. The instability test is a stub that never fires, so
  the table is constant; the penalised branch is modelled all the same.
 */
module Adaptive {
  import opened Wrappers
  import opened Models
  import opened Robula

  /** One recorded change of an attribute of a matched element. The source
      keeps an empty list and never reads it. */
  datatype Observation = Observation(attribute: string, before: string, after: string)

  /** The weighter's state: its history and its penalty factor. */
  datatype Weighter = Weighter(history: seq<Observation>, penaltyFactor: real)

  /** `AdaptiveWeighter()`. */
  function NewWeighter(): (w: Weighter)
    ensures w.history == [] && w.penaltyFactor == 0.5
  {
    Weighter([], 0.5)
  }

  /** `_find_unstable_attributes(attr_type)`: the stub answers no for every
      attribute class and every history. */
  function FindUnstableAttributes(w: Weighter, attrType: string): (unstable: bool)
    ensures !unstable
  {
    false
  }

  /** The table before and after the id penalty. */
  function WeightTable(unstableIds: bool, penalty: real): (t: Weights)
    ensures t.Keys == {"id", "class", "name", "tag"}
    ensures t["id"] == if unstableIds then penalty else 1.0
    ensures t["class"] == 0.8 && t["name"] == 0.8 && t["tag"] == 0.5
  {
    var base := map["id" := 1.0, "class" := 0.8, "name" := 0.8, "tag" := 0.5];
    if unstableIds then base["id" := base["id"] * penalty] else base
  }

  /** `get_weights()`. */
  function GetWeights(w: Weighter): (t: Weights)
    ensures t == WeightTable(false, w.penaltyFactor)
  {
    WeightTable(FindUnstableAttributes(w, "id"), w.penaltyFactor)
  }

  /** The table ignores the history: every weighter with the same penalty
      factor hands out the same weights, which are the unpenalised ones. */
  lemma WeightsIgnoreHistory(a: Weighter, b: Weighter)
    requires a.penaltyFactor == b.penaltyFactor
    ensures GetWeights(a) == GetWeights(b)
    ensures GetWeights(a) == map["id" := 1.0, "class" := 0.8, "name" := 0.8, "tag" := 0.5]
  {
  }

  /** Only the id weight is ever penalised, by the penalty factor. */
  lemma OnlyIdPenalised(penalty: real)
    ensures WeightTable(true, penalty).Keys == WeightTable(false, penalty).Keys
    ensures forall k | k in WeightTable(true, penalty) && k != "id" ::
              WeightTable(true, penalty)[k] == WeightTable(false, penalty)[k]
    ensures WeightTable(true, penalty)["id"] == WeightTable(false, penalty)["id"] * penalty
  {
  }

  /** The table has no `text` key; handed to the synthesiser it gains the
      default text weight 0.5 and keeps its own tag weight 0.5, where the
      synthesiser's own default is 0.2. */
  lemma AdaptiveTableUnderDefaults(w: Weighter)
    ensures "text" !in GetWeights(w)
    ensures WithDefaults(GetWeights(w))["text"] == 0.5
    ensures WithDefaults(GetWeights(w))["tag"] == 0.5 != DefaultWeights()["tag"]
    ensures WithDefaults(GetWeights(w)).Keys == DefaultWeights().Keys
  {
  }

  /** With the default penalty, a penalised id weight is exactly 0.5, which
      fails the strict `> 0.5` gate: the synthesiser never tries the id,
      whatever the node. */
  lemma PenaltyClosesIdTier(node: Node, ctx: Node)
    ensures !IdTierOpen(node, WithDefaults(WeightTable(true, NewWeighter().penaltyFactor)))
    ensures !GenerateXPath(node, ctx, WithDefaults(WeightTable(true, NewWeighter().penaltyFactor))).ById?
  {
  }

  /** Unpenalised, the adaptive table keeps the id tier and class tiers open
      exactly as the synthesiser's defaults do. */
  lemma AdaptiveTableOpensSameTiers(w: Weighter, node: Node)
    ensures IdTierOpen(node, WithDefaults(GetWeights(w))) <==> IdTierOpen(node, DefaultWeights())
    ensures ClassTierOpen(node, WithDefaults(GetWeights(w))) <==> ClassTierOpen(node, DefaultWeights())
  {
  }
}
