/**
 * The orders the repository's tests expect, on its example graphs. The
 * tests list bare target names; here each edge gets weight 1, which the
 * traversals ignore.
 */
module TraversalExamples {
  import opened Graphs
  import opened Traversals

  /** "1" -> "2", "3"; "2" -> "4"; "3" -> "4"; "4" has no edges. */
  function DiamondGraph(): Graph<string>
  {
    map["1" := [("2", 1), ("3", 1)], "2" := [("4", 1)], "3" := [("4", 1)], "4" := []]
  }

  /** "1" -> "2" -> "3" -> "1". */
  function CycleGraph(): Graph<string>
  {
    map["1" := [("2", 1)], "2" := [("3", 1)], "3" := [("1", 1)]]
  }

  /** One loop step, with the popped vertex and the new state spelled out. */
  lemma StepTo<V(!new)>(d: Discipline, g: Graph<V>, explored: set<V>, frontier: seq<V>,
                        v: V, neighbours: seq<V>, found: seq<V>, explored': set<V>, frontier': seq<V>)
    requires frontier != [] && Next(d, frontier).0 == v
    requires Neighbours(g, v) == neighbours && Unexplored(neighbours, explored) == found
    requires explored' == explored + Elems(found) && frontier' == Next(d, frontier).1 + found
    ensures Explore(d, g, explored, frontier) == [v] + Explore(d, g, explored', frontier')
  {
    ExploreStep(d, g, explored, frontier);
  }

  lemma DfsDiamondFromOneStep1()
    ensures Explore(Stack, DiamondGraph(), {"1"}, ["1"]) == ["1"] + Explore(Stack, DiamondGraph(), {"1", "2", "3"}, ["2", "3"])
  {
    StepTo(Stack, DiamondGraph(), {"1"}, ["1"], "1", ["2", "3"], ["2", "3"], {"1", "2", "3"}, ["2", "3"]);
  }

  lemma DfsDiamondFromOneStep2()
    ensures Explore(Stack, DiamondGraph(), {"1", "2", "3"}, ["2", "3"]) == ["3"] + Explore(Stack, DiamondGraph(), {"1", "2", "3", "4"}, ["2", "4"])
  {
    StepTo(Stack, DiamondGraph(), {"1", "2", "3"}, ["2", "3"], "3", ["4"], ["4"], {"1", "2", "3", "4"}, ["2", "4"]);
  }

  lemma DfsDiamondFromOneStep3()
    ensures Explore(Stack, DiamondGraph(), {"1", "2", "3", "4"}, ["2", "4"]) == ["4"] + Explore(Stack, DiamondGraph(), {"1", "2", "3", "4"}, ["2"])
  {
    StepTo(Stack, DiamondGraph(), {"1", "2", "3", "4"}, ["2", "4"], "4", [], [], {"1", "2", "3", "4"}, ["2"]);
  }

  lemma DfsDiamondFromOneStep4()
    ensures Explore(Stack, DiamondGraph(), {"1", "2", "3", "4"}, ["2"]) == ["2"] + Explore(Stack, DiamondGraph(), {"1", "2", "3", "4"}, [])
  {
    StepTo(Stack, DiamondGraph(), {"1", "2", "3", "4"}, ["2"], "2", ["4"], [], {"1", "2", "3", "4"}, []);
  }

  /** Depth-first pops the last-pushed neighbour first, so "3" comes before "2". */
  lemma DfsDiamondFromOne()
    ensures Traversal(Stack, DiamondGraph(), "1") == ["1", "3", "4", "2"]
  {
    var g := DiamondGraph();
    calc {
      Traversal(Stack, g, "1");
      Explore(Stack, g, {"1"}, ["1"]);
      { DfsDiamondFromOneStep1(); }
      ["1"] + Explore(Stack, g, {"1", "2", "3"}, ["2", "3"]);
      { DfsDiamondFromOneStep2(); }
      ["1", "3"] + Explore(Stack, g, {"1", "2", "3", "4"}, ["2", "4"]);
      { DfsDiamondFromOneStep3(); }
      ["1", "3", "4"] + Explore(Stack, g, {"1", "2", "3", "4"}, ["2"]);
      { DfsDiamondFromOneStep4(); }
      ["1", "3", "4", "2"] + Explore(Stack, g, {"1", "2", "3", "4"}, []);
      ["1", "3", "4", "2"];
    }
  }

  lemma BfsDiamondFromOneStep1()
    ensures Explore(Fifo, DiamondGraph(), {"1"}, ["1"]) == ["1"] + Explore(Fifo, DiamondGraph(), {"1", "2", "3"}, ["2", "3"])
  {
    StepTo(Fifo, DiamondGraph(), {"1"}, ["1"], "1", ["2", "3"], ["2", "3"], {"1", "2", "3"}, ["2", "3"]);
  }

  lemma BfsDiamondFromOneStep2()
    ensures Explore(Fifo, DiamondGraph(), {"1", "2", "3"}, ["2", "3"]) == ["2"] + Explore(Fifo, DiamondGraph(), {"1", "2", "3", "4"}, ["3", "4"])
  {
    StepTo(Fifo, DiamondGraph(), {"1", "2", "3"}, ["2", "3"], "2", ["4"], ["4"], {"1", "2", "3", "4"}, ["3", "4"]);
  }

  lemma BfsDiamondFromOneStep3()
    ensures Explore(Fifo, DiamondGraph(), {"1", "2", "3", "4"}, ["3", "4"]) == ["3"] + Explore(Fifo, DiamondGraph(), {"1", "2", "3", "4"}, ["4"])
  {
    StepTo(Fifo, DiamondGraph(), {"1", "2", "3", "4"}, ["3", "4"], "3", ["4"], [], {"1", "2", "3", "4"}, ["4"]);
  }

  lemma BfsDiamondFromOneStep4()
    ensures Explore(Fifo, DiamondGraph(), {"1", "2", "3", "4"}, ["4"]) == ["4"] + Explore(Fifo, DiamondGraph(), {"1", "2", "3", "4"}, [])
  {
    StepTo(Fifo, DiamondGraph(), {"1", "2", "3", "4"}, ["4"], "4", [], [], {"1", "2", "3", "4"}, []);
  }

  /** Breadth-first keeps the listed order of neighbours. */
  lemma BfsDiamondFromOne()
    ensures Traversal(Fifo, DiamondGraph(), "1") == ["1", "2", "3", "4"]
  {
    var g := DiamondGraph();
    calc {
      Traversal(Fifo, g, "1");
      Explore(Fifo, g, {"1"}, ["1"]);
      { BfsDiamondFromOneStep1(); }
      ["1"] + Explore(Fifo, g, {"1", "2", "3"}, ["2", "3"]);
      { BfsDiamondFromOneStep2(); }
      ["1", "2"] + Explore(Fifo, g, {"1", "2", "3", "4"}, ["3", "4"]);
      { BfsDiamondFromOneStep3(); }
      ["1", "2", "3"] + Explore(Fifo, g, {"1", "2", "3", "4"}, ["4"]);
      { BfsDiamondFromOneStep4(); }
      ["1", "2", "3", "4"] + Explore(Fifo, g, {"1", "2", "3", "4"}, []);
      ["1", "2", "3", "4"];
    }
  }

  lemma BothDiamondFromTwoStep1(d: Discipline)
    ensures Explore(d, DiamondGraph(), {"2"}, ["2"]) == ["2"] + Explore(d, DiamondGraph(), {"2", "4"}, ["4"])
  {
    StepTo(d, DiamondGraph(), {"2"}, ["2"], "2", ["4"], ["4"], {"2", "4"}, ["4"]);
  }

  lemma BothDiamondFromTwoStep2(d: Discipline)
    ensures Explore(d, DiamondGraph(), {"2", "4"}, ["4"]) == ["4"] + Explore(d, DiamondGraph(), {"2", "4"}, [])
  {
    StepTo(d, DiamondGraph(), {"2", "4"}, ["4"], "4", [], [], {"2", "4"}, []);
  }

  /** From "2" both disciplines emit "2" then "4". */
  lemma BothDiamondFromTwo(d: Discipline)
    ensures Traversal(d, DiamondGraph(), "2") == ["2", "4"]
  {
    var g := DiamondGraph();
    calc {
      Traversal(d, g, "2");
      Explore(d, g, {"2"}, ["2"]);
      { BothDiamondFromTwoStep1(d); }
      ["2"] + Explore(d, g, {"2", "4"}, ["4"]);
      { BothDiamondFromTwoStep2(d); }
      ["2", "4"] + Explore(d, g, {"2", "4"}, []);
      ["2", "4"];
    }
  }

  lemma BothCycleFromOneStep1(d: Discipline)
    ensures Explore(d, CycleGraph(), {"1"}, ["1"]) == ["1"] + Explore(d, CycleGraph(), {"1", "2"}, ["2"])
  {
    StepTo(d, CycleGraph(), {"1"}, ["1"], "1", ["2"], ["2"], {"1", "2"}, ["2"]);
  }

  lemma BothCycleFromOneStep2(d: Discipline)
    ensures Explore(d, CycleGraph(), {"1", "2"}, ["2"]) == ["2"] + Explore(d, CycleGraph(), {"1", "2", "3"}, ["3"])
  {
    StepTo(d, CycleGraph(), {"1", "2"}, ["2"], "2", ["3"], ["3"], {"1", "2", "3"}, ["3"]);
  }

  lemma BothCycleFromOneStep3(d: Discipline)
    ensures Explore(d, CycleGraph(), {"1", "2", "3"}, ["3"]) == ["3"] + Explore(d, CycleGraph(), {"1", "2", "3"}, [])
  {
    StepTo(d, CycleGraph(), {"1", "2", "3"}, ["3"], "3", ["1"], [], {"1", "2", "3"}, []);
  }

  /** On a cycle both disciplines stop after emitting each vertex once. */
  lemma BothCycleFromOne(d: Discipline)
    ensures Traversal(d, CycleGraph(), "1") == ["1", "2", "3"]
  {
    var g := CycleGraph();
    calc {
      Traversal(d, g, "1");
      Explore(d, g, {"1"}, ["1"]);
      { BothCycleFromOneStep1(d); }
      ["1"] + Explore(d, g, {"1", "2"}, ["2"]);
      { BothCycleFromOneStep2(d); }
      ["1", "2"] + Explore(d, g, {"1", "2", "3"}, ["3"]);
      { BothCycleFromOneStep3(d); }
      ["1", "2", "3"] + Explore(d, g, {"1", "2", "3"}, []);
      ["1", "2", "3"];
    }
  }

  /** "1" lists "2" twice; "2" has no edges. */
  function DoubledEdgeGraph(): Graph<string>
  {
    map["1" := [("2", 1), ("2", 2)], "2" := []]
  }

  lemma BothDoubledFromOneStep1(d: Discipline)
    ensures Explore(d, DoubledEdgeGraph(), {"1"}, ["1"]) == ["1"] + Explore(d, DoubledEdgeGraph(), {"1", "2"}, ["2", "2"])
  {
    StepTo(d, DoubledEdgeGraph(), {"1"}, ["1"], "1", ["2", "2"], ["2", "2"], {"1", "2"}, ["2", "2"]);
  }

  lemma BothDoubledFromOneStep2(d: Discipline)
    ensures Explore(d, DoubledEdgeGraph(), {"1", "2"}, ["2", "2"]) == ["2"] + Explore(d, DoubledEdgeGraph(), {"1", "2"}, ["2"])
  {
    StepTo(d, DoubledEdgeGraph(), {"1", "2"}, ["2", "2"], "2", [], [], {"1", "2"}, ["2"]);
  }

  lemma BothDoubledFromOneStep3(d: Discipline)
    ensures Explore(d, DoubledEdgeGraph(), {"1", "2"}, ["2"]) == ["2"] + Explore(d, DoubledEdgeGraph(), {"1", "2"}, [])
  {
    StepTo(d, DoubledEdgeGraph(), {"1", "2"}, ["2"], "2", [], [], {"1", "2"}, []);
  }

  /**
   * A target listed twice is pushed twice and so emitted twice: the
   * no-repeats property of the traversal needs lists without repeated
   * targets.
   */
  lemma BothDoubledFromOne(d: Discipline)
    ensures Traversal(d, DoubledEdgeGraph(), "1") == ["1", "2", "2"]
    ensures !Distinct(Traversal(d, DoubledEdgeGraph(), "1"))
  {
    var g := DoubledEdgeGraph();
    calc {
      Traversal(d, g, "1");
      Explore(d, g, {"1"}, ["1"]);
      { BothDoubledFromOneStep1(d); }
      ["1"] + Explore(d, g, {"1", "2"}, ["2", "2"]);
      { BothDoubledFromOneStep2(d); }
      ["1", "2"] + Explore(d, g, {"1", "2"}, ["2"]);
      { BothDoubledFromOneStep3(d); }
      ["1", "2", "2"] + Explore(d, g, {"1", "2"}, []);
      ["1", "2", "2"];
    }
    assert Traversal(d, g, "1")[1] == Traversal(d, g, "1")[2];
  }

  lemma BothDiamondFromThreeStep1(d: Discipline)
    ensures Explore(d, DiamondGraph(), {"3"}, ["3"]) == ["3"] + Explore(d, DiamondGraph(), {"3", "4"}, ["4"])
  {
    StepTo(d, DiamondGraph(), {"3"}, ["3"], "3", ["4"], ["4"], {"3", "4"}, ["4"]);
  }

  lemma BothDiamondFromThreeStep2(d: Discipline)
    ensures Explore(d, DiamondGraph(), {"3", "4"}, ["4"]) == ["4"] + Explore(d, DiamondGraph(), {"3", "4"}, [])
  {
    StepTo(d, DiamondGraph(), {"3", "4"}, ["4"], "4", [], [], {"3", "4"}, []);
  }

  /** From "3" both disciplines emit "3" then "4". */
  lemma BothDiamondFromThree(d: Discipline)
    ensures Traversal(d, DiamondGraph(), "3") == ["3", "4"]
  {
    var g := DiamondGraph();
    calc {
      Traversal(d, g, "3");
      Explore(d, g, {"3"}, ["3"]);
      { BothDiamondFromThreeStep1(d); }
      ["3"] + Explore(d, g, {"3", "4"}, ["4"]);
      { BothDiamondFromThreeStep2(d); }
      ["3", "4"] + Explore(d, g, {"3", "4"}, []);
      ["3", "4"];
    }
  }

  /** From the sink "4" only "4" is emitted. */
  lemma BothDiamondFromFour(d: Discipline)
    ensures Traversal(d, DiamondGraph(), "4") == ["4"]
  {
    var g := DiamondGraph();
    calc {
      Traversal(d, g, "4");
      Explore(d, g, {"4"}, ["4"]);
      { StepTo(d, g, {"4"}, ["4"], "4", [], [], {"4"}, []); }
      ["4"] + Explore(d, g, {"4"}, []);
      ["4"];
    }
  }

  /** "1" -> "2" and "3" -> "4", where "2" and "4" are not keys; "5" has no edges. */
  function DisconnectedGraph(): Graph<string>
  {
    map["1" := [("2", 1)], "3" := [("4", 1)], "5" := []]
  }

  lemma BothDisconnectedFromOneStep1(d: Discipline)
    ensures Explore(d, DisconnectedGraph(), {"1"}, ["1"]) == ["1"] + Explore(d, DisconnectedGraph(), {"1", "2"}, ["2"])
  {
    StepTo(d, DisconnectedGraph(), {"1"}, ["1"], "1", ["2"], ["2"], {"1", "2"}, ["2"]);
  }

  lemma BothDisconnectedFromOneStep2(d: Discipline)
    ensures Explore(d, DisconnectedGraph(), {"1", "2"}, ["2"]) == ["2"] + Explore(d, DisconnectedGraph(), {"1", "2"}, [])
  {
    StepTo(d, DisconnectedGraph(), {"1", "2"}, ["2"], "2", [], [], {"1", "2"}, []);
  }

  /** From "1" only its component is emitted; "2", which is not a key, has no neighbours. */
  lemma BothDisconnectedFromOne(d: Discipline)
    ensures Traversal(d, DisconnectedGraph(), "1") == ["1", "2"]
  {
    var g := DisconnectedGraph();
    calc {
      Traversal(d, g, "1");
      Explore(d, g, {"1"}, ["1"]);
      { BothDisconnectedFromOneStep1(d); }
      ["1"] + Explore(d, g, {"1", "2"}, ["2"]);
      { BothDisconnectedFromOneStep2(d); }
      ["1", "2"] + Explore(d, g, {"1", "2"}, []);
      ["1", "2"];
    }
  }

  lemma BothDisconnectedFromThreeStep1(d: Discipline)
    ensures Explore(d, DisconnectedGraph(), {"3"}, ["3"]) == ["3"] + Explore(d, DisconnectedGraph(), {"3", "4"}, ["4"])
  {
    StepTo(d, DisconnectedGraph(), {"3"}, ["3"], "3", ["4"], ["4"], {"3", "4"}, ["4"]);
  }

  lemma BothDisconnectedFromThreeStep2(d: Discipline)
    ensures Explore(d, DisconnectedGraph(), {"3", "4"}, ["4"]) == ["4"] + Explore(d, DisconnectedGraph(), {"3", "4"}, [])
  {
    StepTo(d, DisconnectedGraph(), {"3", "4"}, ["4"], "4", [], [], {"3", "4"}, []);
  }

  lemma BothDisconnectedFromThree(d: Discipline)
    ensures Traversal(d, DisconnectedGraph(), "3") == ["3", "4"]
  {
    var g := DisconnectedGraph();
    calc {
      Traversal(d, g, "3");
      Explore(d, g, {"3"}, ["3"]);
      { BothDisconnectedFromThreeStep1(d); }
      ["3"] + Explore(d, g, {"3", "4"}, ["4"]);
      { BothDisconnectedFromThreeStep2(d); }
      ["3", "4"] + Explore(d, g, {"3", "4"}, []);
      ["3", "4"];
    }
  }

  /** A start with an empty list is emitted alone. */
  lemma BothDisconnectedFromFive(d: Discipline)
    ensures Traversal(d, DisconnectedGraph(), "5") == ["5"]
  {
    var g := DisconnectedGraph();
    calc {
      Traversal(d, g, "5");
      Explore(d, g, {"5"}, ["5"]);
      { StepTo(d, g, {"5"}, ["5"], "5", [], [], {"5"}, []); }
      ["5"] + Explore(d, g, {"5"}, []);
      ["5"];
    }
  }
}
