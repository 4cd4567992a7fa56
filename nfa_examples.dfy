/** Two machines with lambda moves from nfa-simulator/src/nfa.spec.ts,
    stated in the model, with one lemma per reachable frontier. */
module NfaExamples {
  import opened Nfa

  /** One step of the simulation, with the next frontier named. */
  lemma Step(d: Description, s: string, xs: seq<State>, ys: seq<State>)
    requires |s| > 0 && Successors(d, Expand(d, xs), [s[0]]) == ys
    ensures AcceptsFrom(d, s, xs) == AcceptsFrom(d, s[1..], ys)
  {
  }

  // ---------------------------------------------------------------------
  // perfectSquaresLessThan12 (nfa.spec.ts:80-111)

  function PerfectSquares(): Description {
    Description(
      map["A" := map[Lambda := ["B", "D"]],
          "B" := map["0" := ["C"]],
          "C" := map[Lambda := ["D"], "0" := ["C"]],
          "D" := map["1" := ["E"]],
          "E" := map["0" := ["F"]],
          "F" := map["0" := ["G"]],
          "G" := map["1" := ["H"]]],
      "A", ["A", "C", "E", "G", "H"])
  }

  /** The frontier ["A"]: its widening, its moves and whether it accepts. */
  lemma SquaresFromA()
    ensures Expand(PerfectSquares(), ["A"]) == ["A", "B", "D"]
    ensures Successors(PerfectSquares(), ["A", "B", "D"], "0") == ["C"]
    ensures Successors(PerfectSquares(), ["A", "B", "D"], "1") == ["E"]
    ensures Meets(PerfectSquares().acceptStates, ["A", "B", "D"])
  {
    assert "A" in PerfectSquares().acceptStates && "A" in ["A", "B", "D"];
  }

  /** The frontier ["E"]: its widening, its moves and whether it accepts. */
  lemma SquaresFromE()
    ensures Expand(PerfectSquares(), ["E"]) == ["E"]
    ensures Successors(PerfectSquares(), ["E"], "0") == ["F"]
    ensures Successors(PerfectSquares(), ["E"], "1") == []
    ensures Meets(PerfectSquares().acceptStates, ["E"])
  {
    assert "E" in PerfectSquares().acceptStates && "E" in ["E"];
  }

  /** The frontier ["F"]: its widening, its moves and whether it accepts. */
  lemma SquaresFromF()
    ensures Expand(PerfectSquares(), ["F"]) == ["F"]
    ensures Successors(PerfectSquares(), ["F"], "0") == ["G"]
    ensures Successors(PerfectSquares(), ["F"], "1") == []
    ensures !Meets(PerfectSquares().acceptStates, ["F"])
  {
  }

  /** The frontier ["G"]: its widening, its moves and whether it accepts. */
  lemma SquaresFromG()
    ensures Expand(PerfectSquares(), ["G"]) == ["G"]
    ensures Successors(PerfectSquares(), ["G"], "0") == []
    ensures Successors(PerfectSquares(), ["G"], "1") == ["H"]
    ensures Meets(PerfectSquares().acceptStates, ["G"])
  {
    assert "G" in PerfectSquares().acceptStates && "G" in ["G"];
  }

  /** The frontier ["H"]: its widening, its moves and whether it accepts. */
  lemma SquaresFromH()
    ensures Expand(PerfectSquares(), ["H"]) == ["H"]
    ensures Successors(PerfectSquares(), ["H"], "0") == []
    ensures Successors(PerfectSquares(), ["H"], "1") == []
    ensures Meets(PerfectSquares().acceptStates, ["H"])
  {
    assert "H" in PerfectSquares().acceptStates && "H" in ["H"];
  }

  /** The frontier ["C"]: its widening, its moves and whether it accepts. */
  lemma SquaresFromC()
    ensures Expand(PerfectSquares(), ["C"]) == ["C", "D"]
    ensures Successors(PerfectSquares(), ["C", "D"], "0") == ["C"]
    ensures Successors(PerfectSquares(), ["C", "D"], "1") == ["E"]
    ensures Meets(PerfectSquares().acceptStates, ["C", "D"])
  {
    assert "C" in PerfectSquares().acceptStates && "C" in ["C", "D"];
  }

  /** The strings the tests list as accepted (nfa.spec.ts:109). */
  lemma SquaresAccepts()
    ensures Accepts(PerfectSquares(), "")
    ensures Accepts(PerfectSquares(), "0")
    ensures Accepts(PerfectSquares(), "1")
    ensures Accepts(PerfectSquares(), "100")
    ensures Accepts(PerfectSquares(), "1001")
    ensures Accepts(PerfectSquares(), "0001001")
    ensures Accepts(PerfectSquares(), "00")
  {
    var d := PerfectSquares();
    SquaresFromA();
    SquaresFromE();
    SquaresFromF();
    SquaresFromG();
    SquaresFromH();
    SquaresFromC();
    Step(d, "0", ["A"], ["C"]);
    Step(d, "1", ["A"], ["E"]);
    Step(d, "100", ["A"], ["E"]);
    Step(d, "00", ["E"], ["F"]);
    Step(d, "0", ["F"], ["G"]);
    Step(d, "1001", ["A"], ["E"]);
    Step(d, "001", ["E"], ["F"]);
    Step(d, "01", ["F"], ["G"]);
    Step(d, "1", ["G"], ["H"]);
    Step(d, "0001001", ["A"], ["C"]);
    Step(d, "001001", ["C"], ["C"]);
    Step(d, "01001", ["C"], ["C"]);
    Step(d, "1001", ["C"], ["E"]);
    Step(d, "001", ["E"], ["F"]);
    Step(d, "01", ["F"], ["G"]);
    Step(d, "1", ["G"], ["H"]);
    Step(d, "00", ["A"], ["C"]);
    Step(d, "0", ["C"], ["C"]);
  }

  /** The strings the tests list as rejected (nfa.spec.ts:110). */
  lemma SquaresRejects()
    ensures !Accepts(PerfectSquares(), "10")
    ensures !Accepts(PerfectSquares(), "11")
    ensures !Accepts(PerfectSquares(), "101")
    ensures !Accepts(PerfectSquares(), "110")
    ensures !Accepts(PerfectSquares(), "111")
    ensures !Accepts(PerfectSquares(), "1000")
    ensures !Accepts(PerfectSquares(), "1010")
    ensures !Accepts(PerfectSquares(), "1011")
    ensures !Accepts(PerfectSquares(), "1100")
  {
    var d := PerfectSquares();
    SquaresFromA();
    SquaresFromE();
    SquaresFromF();
    SquaresFromG();
    SquaresFromH();
    SquaresFromC();
    Step(d, "10", ["A"], ["E"]);
    Step(d, "0", ["E"], ["F"]);
    Step(d, "11", ["A"], ["E"]);
    Step(d, "1", ["E"], []);
    Step(d, "101", ["A"], ["E"]);
    Step(d, "01", ["E"], ["F"]);
    Step(d, "1", ["F"], []);
    Step(d, "110", ["A"], ["E"]);
    Step(d, "10", ["E"], []);
    EmptyFrontierRejects(d, "0");
    Step(d, "111", ["A"], ["E"]);
    Step(d, "11", ["E"], []);
    EmptyFrontierRejects(d, "1");
    Step(d, "1000", ["A"], ["E"]);
    Step(d, "000", ["E"], ["F"]);
    Step(d, "00", ["F"], ["G"]);
    Step(d, "0", ["G"], []);
    Step(d, "1010", ["A"], ["E"]);
    Step(d, "010", ["E"], ["F"]);
    Step(d, "10", ["F"], []);
    EmptyFrontierRejects(d, "0");
    Step(d, "1011", ["A"], ["E"]);
    Step(d, "011", ["E"], ["F"]);
    Step(d, "11", ["F"], []);
    EmptyFrontierRejects(d, "1");
    Step(d, "1100", ["A"], ["E"]);
    Step(d, "100", ["E"], []);
    EmptyFrontierRejects(d, "00");
  }

  // ---------------------------------------------------------------------
  // universalStartsEndsWith0 (nfa.spec.ts:112-134)

  function Universal(): Description {
    Description(
      map["A" := map[Lambda := ["B"]],
          "B" := map["0" := ["C"]],
          "C" := map["0" := ["C", "D"], "1" := ["C"]],
          "D" := map[Lambda := ["A"]]],
      "A", ["A", "D"])
  }

  /** The frontier ["A"]: its widening, its moves and whether it accepts. */
  lemma UniversalFromA()
    ensures Expand(Universal(), ["A"]) == ["A", "B"]
    ensures Successors(Universal(), ["A", "B"], "0") == ["C"]
    ensures Successors(Universal(), ["A", "B"], "1") == []
    ensures Meets(Universal().acceptStates, ["A", "B"])
  {
    assert "A" in Universal().acceptStates && "A" in ["A", "B"];
  }

  /** The frontier ["C"]: its widening, its moves and whether it accepts. */
  lemma UniversalFromC()
    ensures Expand(Universal(), ["C"]) == ["C"]
    ensures Successors(Universal(), ["C"], "0") == ["C", "D"]
    ensures Successors(Universal(), ["C"], "1") == ["C"]
    ensures !Meets(Universal().acceptStates, ["C"])
  {
  }

  /** The frontier ["C", "D"]: its widening, its moves and whether it accepts. */
  lemma UniversalFromCD()
    ensures Expand(Universal(), ["C", "D"]) == ["C", "D", "A"]
    ensures Successors(Universal(), ["C", "D", "A"], "0") == ["C", "D"]
    ensures Successors(Universal(), ["C", "D", "A"], "1") == ["C"]
    ensures Meets(Universal().acceptStates, ["C", "D", "A"])
  {
    assert "D" in Universal().acceptStates && "D" in ["C", "D", "A"];
  }

  /** The strings the tests list as accepted (nfa.spec.ts:132). */
  lemma UniversalAccepts()
    ensures Accepts(Universal(), "")
    ensures Accepts(Universal(), "00")
    ensures Accepts(Universal(), "010")
    ensures Accepts(Universal(), "00000")
    ensures Accepts(Universal(), "011011100")
    ensures Accepts(Universal(), "01110010")
    ensures Accepts(Universal(), "01100010")
  {
    var d := Universal();
    UniversalFromA();
    UniversalFromC();
    UniversalFromCD();
    Step(d, "00", ["A"], ["C"]);
    Step(d, "0", ["C"], ["C", "D"]);
    Step(d, "010", ["A"], ["C"]);
    Step(d, "10", ["C"], ["C"]);
    Step(d, "0", ["C"], ["C", "D"]);
    Step(d, "00000", ["A"], ["C"]);
    Step(d, "0000", ["C"], ["C", "D"]);
    Step(d, "000", ["C", "D"], ["C", "D"]);
    Step(d, "00", ["C", "D"], ["C", "D"]);
    Step(d, "0", ["C", "D"], ["C", "D"]);
    Step(d, "011011100", ["A"], ["C"]);
    Step(d, "11011100", ["C"], ["C"]);
    Step(d, "1011100", ["C"], ["C"]);
    Step(d, "011100", ["C"], ["C", "D"]);
    Step(d, "11100", ["C", "D"], ["C"]);
    Step(d, "1100", ["C"], ["C"]);
    Step(d, "100", ["C"], ["C"]);
    Step(d, "00", ["C"], ["C", "D"]);
    Step(d, "0", ["C", "D"], ["C", "D"]);
    Step(d, "01110010", ["A"], ["C"]);
    Step(d, "1110010", ["C"], ["C"]);
    Step(d, "110010", ["C"], ["C"]);
    Step(d, "10010", ["C"], ["C"]);
    Step(d, "0010", ["C"], ["C", "D"]);
    Step(d, "010", ["C", "D"], ["C", "D"]);
    Step(d, "10", ["C", "D"], ["C"]);
    Step(d, "0", ["C"], ["C", "D"]);
    Step(d, "01100010", ["A"], ["C"]);
    Step(d, "1100010", ["C"], ["C"]);
    Step(d, "100010", ["C"], ["C"]);
    Step(d, "00010", ["C"], ["C", "D"]);
    Step(d, "0010", ["C", "D"], ["C", "D"]);
    Step(d, "010", ["C", "D"], ["C", "D"]);
    Step(d, "10", ["C", "D"], ["C"]);
    Step(d, "0", ["C"], ["C", "D"]);
  }

  /** The strings the tests list as rejected (nfa.spec.ts:133). */
  lemma UniversalRejects()
    ensures !Accepts(Universal(), "0")
    ensures !Accepts(Universal(), "01")
    ensures !Accepts(Universal(), "10")
    ensures !Accepts(Universal(), "11")
    ensures !Accepts(Universal(), "01101")
    ensures !Accepts(Universal(), "100110")
  {
    var d := Universal();
    UniversalFromA();
    UniversalFromC();
    UniversalFromCD();
    Step(d, "0", ["A"], ["C"]);
    Step(d, "01", ["A"], ["C"]);
    Step(d, "1", ["C"], ["C"]);
    Step(d, "10", ["A"], []);
    EmptyFrontierRejects(d, "0");
    Step(d, "11", ["A"], []);
    EmptyFrontierRejects(d, "1");
    Step(d, "01101", ["A"], ["C"]);
    Step(d, "1101", ["C"], ["C"]);
    Step(d, "101", ["C"], ["C"]);
    Step(d, "01", ["C"], ["C", "D"]);
    Step(d, "1", ["C", "D"], ["C"]);
    Step(d, "100110", ["A"], []);
    EmptyFrontierRejects(d, "00110");
  }
}
