/** The hyperreality engine: a table of worked examples, a weighted score
    of how deeply a phenomenon is simulated, and Baudrillard's four phases
    of the image. */
module HyperrealEngine {
  import opened Wrappers
  import opened Simulacra

  // ---------------------------------------------------------------------
  // Worked examples

  /** The two kinds of simulacrum the examples name: order 3 masks the
      absence of reality, order 4 is pure simulation. */
  datatype ExampleKind = MasksAbsence | PureSimulation

  /** One worked example; its free-text analysis is left out. */
  datatype Example = Example(domain: string, order: nat, kind: ExampleKind)

  const Examples: map<string, Example> := map[
    "disneyland" := Example("Theme parks", 3, MasksAbsence),
    "reality_tv" := Example("Media", 4, PureSimulation),
    "social_media" := Example("Identity", 4, PureSimulation),
    "news_24_7" := Example("Information", 3, MasksAbsence),
    "shopping_mall" := Example("Consumerism", 3, MasksAbsence),
    "deepfakes" := Example("Technology", 4, PureSimulation)
  ]

  /** The example stored under `key`; `None` stands for the empty record
      returned for an unknown key. */
  function AnalyzeHyperreal(key: string): (r: Option<Example>)
    ensures r.Some? <==> key in Examples
    ensures r.Some? ==> r.value == Examples[key]
  {
    if key in Examples then Some(Examples[key]) else None
  }

  /** Disneyland is the order-3 example that masks the absence of reality. */
  lemma DisneylandIsOrderThree()
    ensures AnalyzeHyperreal("disneyland") == Some(Example("Theme parks", 3, MasksAbsence))
  {
  }

  /** Every example is of order 3 or 4, and its kind says which. */
  lemma ExamplesAreThirdOrFourthOrder()
    ensures forall key :: key in Examples ==>
              && (Examples[key].order == 3 || Examples[key].order == 4)
              && (Examples[key].order == 3 <==> Examples[key].kind == MasksAbsence)
  {
  }

  // ---------------------------------------------------------------------
  // Simulation depth

  /** The indicators of simulation and their weights, in the order the
      engine visits them. */
  const DepthWeights: seq<(string, nat)> := [
    ("mediated", 10),
    ("branded", 15),
    ("virtual", 20),
    ("ai_generated", 25),
    ("no_original", 30),
    ("self_referential", 20),
    ("commercially_driven", 15)
  ]

  /** Whether the phenomenon's value under `key` is truthy; a missing key
      reads as `None`, which is falsy. */
  predicate Truthy(phenomena: map<string, bool>, key: string) {
    key in phenomena && phenomena[key]
  }

  /** The sum of the weights in `table` whose indicator is truthy. */
  function WeightedDepth(phenomena: map<string, bool>, table: seq<(string, nat)>): nat {
    if table == [] then 0
    else
      var (name, weight) := table[|table| - 1];
      WeightedDepth(phenomena, table[..|table| - 1]) + (if Truthy(phenomena, name) then weight else 0)
  }

  /** The sum of all the weights in `table`. */
  function TotalWeight(table: seq<(string, nat)>): nat {
    if table == [] then 0 else TotalWeight(table[..|table| - 1]) + table[|table| - 1].1
  }

  /** The names in `table`. */
  function Names(table: seq<(string, nat)>): set<string> {
    set i | 0 <= i < |table| :: table[i].0
  }

  /** The level a depth reaches: above 80 hyperreal, above 50 simulation,
      above 20 representation, real otherwise. */
  function DepthLevel(depth: int): (level: Level)
    ensures level == Hyperreal <==> depth > 80
    ensures level == Simulation <==> 50 < depth <= 80
    ensures level == Representation <==> 20 < depth <= 50
    ensures level == Real <==> depth <= 20
  {
    if depth > 80 then Hyperreal
    else if depth > 50 then Simulation
    else if depth > 20 then Representation
    else Real
  }

  /** A deeper phenomenon never reaches a lower level. */
  lemma DepthLevelMonotone(a: int, b: int)
    requires a <= b
    ensures DepthLevel(a).Order() <= DepthLevel(b).Order()
  {
  }

  /** The score, capped at 100, and the level of the uncapped depth. */
  datatype DepthResult = DepthResult(depthScore: nat, level: Level)

  /** The engine's measure: one pass over the weight table, adding the
      weight of each truthy indicator. */
  method MeasureSimulationDepth(phenomena: map<string, bool>) returns (result: DepthResult)
    ensures var depth := WeightedDepth(phenomena, DepthWeights);
            && result.depthScore == (if depth < 100 then depth else 100)
            && result.level == DepthLevel(depth)
  {
    var depth: nat := 0;
    for i := 0 to |DepthWeights|
      invariant depth == WeightedDepth(phenomena, DepthWeights[..i])
    {
      var (name, weight) := DepthWeights[i];
      assert DepthWeights[..i + 1][..i] == DepthWeights[..i];
      if name in phenomena && phenomena[name] {
        depth := depth + weight;
      }
    }
    assert DepthWeights[..|DepthWeights|] == DepthWeights;
    var level := if depth > 80 then Hyperreal
                 else if depth > 50 then Simulation
                 else if depth > 20 then Representation
                 else Real;
    result := DepthResult(if depth < 100 then depth else 100, level);
  }

  /** The depth is at most the sum of all the weights, reached exactly
      when every indicator is truthy. */
  lemma {:induction false} WeightedDepthBounds(phenomena: map<string, bool>, table: seq<(string, nat)>)
    ensures WeightedDepth(phenomena, table) <= TotalWeight(table)
    ensures (forall i :: 0 <= i < |table| ==> Truthy(phenomena, table[i].0)) ==>
              WeightedDepth(phenomena, table) == TotalWeight(table)
  {
    if table != [] {
      var init := table[..|table| - 1];
      WeightedDepthBounds(phenomena, init);
      assert forall i :: 0 <= i < |init| ==> init[i] == table[i];
    }
  }

  /** The weights add up to 135, so the depth lies between 0 and 135. */
  lemma DepthAtMost135(phenomena: map<string, bool>)
    ensures WeightedDepth(phenomena, DepthWeights) <= 135
  {
    WeightedDepthBounds(phenomena, DepthWeights);
    assert TotalWeight(DepthWeights) == 135 by {
      var t: seq<(string, nat)> := DepthWeights;
      assert |t[..1][..0]| == 0;
      assert TotalWeight(t[..1]) == 10;
      assert t[..2][..1] == t[..1];
      assert TotalWeight(t[..2]) == 25;
      assert t[..3][..2] == t[..2];
      assert TotalWeight(t[..3]) == 45;
      assert t[..4][..3] == t[..3];
      assert TotalWeight(t[..4]) == 70;
      assert t[..5][..4] == t[..4];
      assert TotalWeight(t[..5]) == 100;
      assert t[..6][..5] == t[..5];
      assert TotalWeight(t[..6]) == 120;
      assert TotalWeight(t) == 135;
    }
  }

  /** Keys outside the table do not change the depth. */
  lemma {:induction false} OtherKeysIgnored(phenomena: map<string, bool>, table: seq<(string, nat)>,
                                             key: string, value: bool)
    requires key !in Names(table)
    ensures WeightedDepth(phenomena[key := value], table) == WeightedDepth(phenomena, table)
  {
    if table != [] {
      var init := table[..|table| - 1];
      assert Names(init) <= Names(table) by {
        forall name | name in Names(init) ensures name in Names(table) {
          var i :| 0 <= i < |init| && init[i].0 == name;
          assert table[i] == init[i];
        }
      }
      OtherKeysIgnored(phenomena, init, key, value);
      assert table[|table| - 1].0 in Names(table);
    }
  }

  /** Making more indicators truthy never lowers the depth. */
  lemma {:induction false} WeightedDepthMonotone(p: map<string, bool>, q: map<string, bool>, table: seq<(string, nat)>)
    requires forall key :: Truthy(p, key) ==> Truthy(q, key)
    ensures WeightedDepth(p, table) <= WeightedDepth(q, table)
  {
    if table != [] {
      WeightedDepthMonotone(p, q, table[..|table| - 1]);
      var name := table[|table| - 1].0;
      assert Truthy(p, name) ==> Truthy(q, name);
    }
  }

  /** Mediated, virtual, AI-generated and without original: 10 + 20 + 25
      + 30 = 85, which is hyperreal. */
  lemma MediatedVirtualGeneratedIsHyperreal()
    ensures var phenomena := map["mediated" := true, "virtual" := true, "ai_generated" := true, "no_original" := true];
            && WeightedDepth(phenomena, DepthWeights) == 85
            && DepthLevel(WeightedDepth(phenomena, DepthWeights)) == Hyperreal
  {
    var phenomena := map["mediated" := true, "virtual" := true, "ai_generated" := true, "no_original" := true];
    var t: seq<(string, nat)> := DepthWeights;
    assert |t[..1][..0]| == 0;
    assert WeightedDepth(phenomena, t[..1]) == 10;
    assert t[..2][..1] == t[..1];
    assert WeightedDepth(phenomena, t[..2]) == 10;
    assert t[..3][..2] == t[..2];
    assert WeightedDepth(phenomena, t[..3]) == 30;
    assert t[..4][..3] == t[..3];
    assert WeightedDepth(phenomena, t[..4]) == 55;
    assert t[..5][..4] == t[..4];
    assert WeightedDepth(phenomena, t[..5]) == 85;
    assert t[..6][..5] == t[..5];
    assert WeightedDepth(phenomena, t[..6]) == 85;
    assert WeightedDepth(phenomena, t) == 85;
  }

  // ---------------------------------------------------------------------
  // Precession of simulacra

  datatype Phase = Phase(phase: nat, description: string, era: string)

  /** The four successive phases of the image, from reflecting reality to
      bearing no relation to it. */
  function PrecessionOfSimulacra(): (phases: seq<Phase>)
    ensures |phases| == 4
    ensures forall i :: 0 <= i < 4 ==> phases[i].phase == i + 1
  {
    [
      Phase(1, "Image reflects reality", "Pre-modern"),
      Phase(2, "Image masks reality", "Modern"),
      Phase(3, "Image masks absence of reality", "Postmodern"),
      Phase(4, "Image bears no relation to reality", "Hypermodern")
    ]
  }
}
