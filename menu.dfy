/** The simulation-conditions window: four counters (number of people,
    level of closeness, starting number of infected, connected), each shown
    in a value box and changed by a guarded "+" or "-" button, and a
    "Generate" button that hands the four settings to the simulation. */
module Menu {
  import opened Base
  import opened Decimal

  /** Indices into the list of counters. */
  const PEOPLE := 0
  const CLOSENESS := 1
  const INFECTED := 2
  const CONNECTED := 3

  /** The counters when the window opens. */
  const INITIAL_VALUES: seq<int> := [20, 1, 1, 1]

  /** The word shown for a closeness (dataset 1) or connected (any other
      dataset) setting; a closeness outside 0..2 has none. */
  function DetermineStep(dataset: int, variableValue: int): (r: Option<string>)
    ensures dataset == 1 ==> (r.Some? <==> 0 <= variableValue <= 2)
    ensures dataset == 1 && variableValue == 0 ==> r == Some("low")
    ensures dataset == 1 && variableValue == 1 ==> r == Some("medium")
    ensures dataset == 1 && variableValue == 2 ==> r == Some("high")
    ensures dataset != 1 ==> (r == Some("no") <==> variableValue == 0)
    ensures dataset != 1 ==> (r == Some("yes") <==> variableValue != 0)
  {
    if dataset == 1 then
      if variableValue == 0 then Some("low")
      else if variableValue == 1 then Some("medium")
      else if variableValue == 2 then Some("high")
      else None
    else
      if variableValue == 0 then Some("no") else Some("yes")
  }

  /** The setting a word stands for, the inverse of `DetermineStep` on the
      settings the buttons allow. */
  function StepValue(dataset: int, word: string): Option<int> {
    if dataset == 1 then
      if word == "low" then Some(0)
      else if word == "medium" then Some(1)
      else if word == "high" then Some(2)
      else None
    else
      if word == "no" then Some(0)
      else if word == "yes" then Some(1)
      else None
  }

  lemma DetermineStepRoundTrip(dataset: int, variableValue: int)
    requires dataset == 1 ==> 0 <= variableValue <= 2
    requires dataset != 1 ==> 0 <= variableValue <= 1
    ensures DetermineStep(dataset, variableValue).Some?
    ensures StepValue(dataset, DetermineStep(dataset, variableValue).value) == Some(variableValue)
  {
  }

  /** What a counter's value box shows: the word for closeness and
      connected, the number otherwise. */
  function DisplayText(dataset: int, value: int): Option<string> {
    if dataset == 1 || dataset == 3 then DetermineStep(dataset, value) else Some(IntToString(value))
  }

  /** Every value box can be read back: the number for the people and the
      infected, the setting for closeness and connected. */
  lemma DisplayTextReadsBack(dataset: int, value: int)
    requires dataset == 1 ==> 0 <= value <= 2
    requires dataset == 3 ==> 0 <= value <= 1
    ensures DisplayText(dataset, value).Some?
    ensures dataset == 1 || dataset == 3 ==> StepValue(dataset, DisplayText(dataset, value).value) == Some(value)
    ensures dataset != 1 && dataset != 3 ==> ParseInt(DisplayText(dataset, value).value) == Some(value)
  {
    if dataset == 1 || dataset == 3 {
      DetermineStepRoundTrip(dataset, value);
    } else {
      IntToStringRoundTrip(value);
    }
  }

  /** A value box; its text is `None` when it has been given no word. */
  class TextBox {
    var htmlText: Option<string>

    constructor(text: string)
      ensures htmlText == Some(text)
    {
      htmlText := Some(text);
    }
  }

  /** Adds `delta` to counter `dataset` and shows the new value in `textbox`. */
  method ChangeInterval(variableValues: array<int>, textbox: TextBox, delta: int, dataset: int)
    requires 0 <= dataset < variableValues.Length
    modifies variableValues, textbox
    ensures variableValues[..] == old(variableValues[..])[dataset := old(variableValues[dataset]) + delta]
    ensures textbox.htmlText == DisplayText(dataset, variableValues[dataset])
  {
    variableValues[dataset] := variableValues[dataset] + delta;
    if dataset == 1 || dataset == 3 {
      textbox.htmlText := DetermineStep(dataset, variableValues[dataset]);
    } else {
      var value := IntToString(variableValues[dataset]);
      textbox.htmlText := Some(value);
    }
  }

  datatype Button =
    | PeoplePlus | PeopleMinus
    | ClosenessPlus | ClosenessMinus
    | InfectedPlus | InfectedMinus
    | ConnectedPlus | ConnectedMinus
    | Generate

  /** The counter a press changes and by how much, or `None` when its guard
      is false or the button is "Generate". */
  function Change(v: seq<int>, b: Button): (change: Option<(int, int)>)
    requires |v| == 4
    ensures change.Some? ==> 0 <= change.value.0 < 4
    ensures change.Some? && change.value.0 == PEOPLE ==> change.value.1 == 10 || change.value.1 == -10
    ensures change.Some? && change.value.0 != PEOPLE ==> change.value.1 == 1 || change.value.1 == -1
    ensures change == Some((INFECTED, 1)) <==> b == InfectedPlus && v[INFECTED] < v[PEOPLE]
    ensures change == Some((PEOPLE, -10)) <==> b == PeopleMinus && v[PEOPLE] > 10
  {
    match b
    case PeoplePlus => if v[0] < 60 then Some((0, 10)) else None
    case PeopleMinus => if v[0] > 10 then Some((0, -10)) else None
    case ClosenessPlus => if v[1] < 2 then Some((1, 1)) else None
    case ClosenessMinus => if v[1] > 0 then Some((1, -1)) else None
    case InfectedPlus => if v[2] < v[0] then Some((2, 1)) else None
    case InfectedMinus => if v[2] > 0 then Some((2, -1)) else None
    case ConnectedPlus => if v[3] == 0 then Some((3, 1)) else None
    case ConnectedMinus => if v[3] == 1 then Some((3, -1)) else None
    case Generate => None
  }

  /** The counters after a press. */
  function Press(v: seq<int>, b: Button): (r: seq<int>)
    requires |v| == 4
    ensures |r| == 4
  {
    match Change(v, b)
    case None => v
    case Some((k, delta)) => v[k := v[k] + delta]
  }

  /** The counters after a series of presses. */
  function Run(v: seq<int>, presses: seq<Button>): (r: seq<int>)
    requires |v| == 4
    ensures |r| == 4
    decreases |presses|
  {
    if |presses| == 0 then v else Run(Press(v, presses[0]), presses[1..])
  }

  /** What every reachable setting satisfies: the population is a multiple
      of ten between 10 and 60, closeness is 0, 1 or 2, connected is 0 or 1
      and the number infected is not negative. The number infected may
      exceed the population. */
  predicate Settled(v: seq<int>) {
    |v| == 4 &&
    v[PEOPLE] % 10 == 0 && 10 <= v[PEOPLE] <= 60 &&
    0 <= v[CLOSENESS] <= 2 &&
    0 <= v[INFECTED] &&
    0 <= v[CONNECTED] <= 1
  }

  lemma PressKeepsSettled(v: seq<int>, b: Button)
    requires Settled(v)
    ensures Settled(Press(v, b))
  {
  }

  lemma {:induction false} RunKeepsSettled(v: seq<int>, presses: seq<Button>)
    requires Settled(v)
    ensures Settled(Run(v, presses))
    decreases |presses|
  {
    if |presses| > 0 {
      PressKeepsSettled(v, presses[0]);
      RunKeepsSettled(Press(v, presses[0]), presses[1..]);
    }
  }

  /** Every setting reachable from the opening window is settled. */
  lemma ReachableSettled(presses: seq<Button>)
    ensures Settled(Run(INITIAL_VALUES, presses))
  {
    RunKeepsSettled(INITIAL_VALUES, presses);
  }

  /** "+" on the number infected only acts while it is below the population. */
  lemma InfectedRisesOnlyBelowPopulation(v: seq<int>, b: Button)
    requires |v| == 4 && Press(v, b)[INFECTED] > v[INFECTED]
    ensures b == InfectedPlus && v[INFECTED] < v[PEOPLE]
  {
  }

  /** Ten "+" presses on the number infected and one "-" on the number of
      people reach 11 infected among 10 people: "-" on the people does not
      look at the number infected. */
  lemma InfectedCanExceedPopulation()
    ensures Run(INITIAL_VALUES, seq(10, _ => InfectedPlus) + [PeopleMinus]) == [10, 1, 11, 1]
  {
    var presses := seq(10, _ => InfectedPlus) + [PeopleMinus];
    var v := INITIAL_VALUES;
    var i := 0;
    while i < 10
      invariant 0 <= i <= 10
      invariant v == [20, 1, 1 + i, 1]
      invariant Run(INITIAL_VALUES, presses) == Run(v, presses[i..])
    {
      assert presses[i..][0] == InfectedPlus && presses[i..][1..] == presses[i + 1..];
      v := Press(v, InfectedPlus);
      i := i + 1;
    }
    assert presses[10..] == [PeopleMinus];
  }

  /** The settings "Generate" hands to the simulation. */
  datatype SimulationArgs = SimulationArgs(
    population: int, closeness: Option<string>, infected: int, connected: Option<string>)

  function GenerateArgs(v: seq<int>): SimulationArgs
    requires |v| == 4
  {
    SimulationArgs(v[0], DetermineStep(1, v[1]), v[2], DetermineStep(3, v[3]))
  }

  /** From a settled window, "Generate" passes both words, and each word
      names the counter's value. */
  lemma GenerateArgsNamed(v: seq<int>)
    requires Settled(v)
    ensures GenerateArgs(v).closeness.Some? && GenerateArgs(v).connected.Some?
    ensures StepValue(1, GenerateArgs(v).closeness.value) == Some(v[CLOSENESS])
    ensures StepValue(3, GenerateArgs(v).connected.value) == Some(v[CONNECTED])
  {
    DetermineStepRoundTrip(1, v[CLOSENESS]);
    DetermineStepRoundTrip(3, v[CONNECTED]);
  }

  /** The simulations launched by a series of presses. */
  function Launches(v: seq<int>, presses: seq<Button>): seq<SimulationArgs>
    requires |v| == 4
    decreases |presses|
  {
    if |presses| == 0 then []
    else
      (if presses[0] == Generate then [GenerateArgs(v)] else []) +
      Launches(Press(v, presses[0]), presses[1..])
  }

  /** A session of presses is its first presses followed by the last one. */
  lemma {:induction false} RunSnoc(v: seq<int>, presses: seq<Button>, b: Button)
    requires |v| == 4
    ensures Run(v, presses + [b]) == Press(Run(v, presses), b)
    ensures Launches(v, presses + [b]) ==
      Launches(v, presses) + (if b == Generate then [GenerateArgs(Run(v, presses))] else [])
    decreases |presses|
  {
    if |presses| > 0 {
      assert (presses + [b])[1..] == presses[1..] + [b];
      RunSnoc(Press(v, presses[0]), presses[1..], b);
    }
  }

  /** The window: the counters and their four value boxes. */
  class Interface {
    const variableValues: array<int>
    const peopleChange: TextBox
    const closenessChange: TextBox
    const infectedChange: TextBox
    const connectedChange: TextBox

    function Box(dataset: int): TextBox
      requires 0 <= dataset < 4
    {
      if dataset == 0 then peopleChange
      else if dataset == 1 then closenessChange
      else if dataset == 2 then infectedChange
      else connectedChange
    }

    /** Four distinct boxes, each showing its counter. */
    ghost predicate Valid()
      reads this, variableValues, peopleChange, closenessChange, infectedChange, connectedChange
    {
      variableValues.Length == 4 &&
      peopleChange != closenessChange && peopleChange != infectedChange &&
      peopleChange != connectedChange && closenessChange != infectedChange &&
      closenessChange != connectedChange && infectedChange != connectedChange &&
      peopleChange.htmlText == DisplayText(0, variableValues[0]) &&
      closenessChange.htmlText == DisplayText(1, variableValues[1]) &&
      infectedChange.htmlText == DisplayText(2, variableValues[2]) &&
      connectedChange.htmlText == DisplayText(3, variableValues[3])
    }

    constructor()
      ensures Valid() && fresh(variableValues)
      ensures fresh(peopleChange) && fresh(closenessChange) && fresh(infectedChange) && fresh(connectedChange)
      ensures variableValues[..] == INITIAL_VALUES
      ensures peopleChange.htmlText == Some("20") && closenessChange.htmlText == Some("medium")
      ensures infectedChange.htmlText == Some("1") && connectedChange.htmlText == Some("yes")
    {
      peopleChange := new TextBox("20");
      closenessChange := new TextBox("medium");
      infectedChange := new TextBox("1");
      connectedChange := new TextBox("yes");
      variableValues := new int[4] [20, 1, 1, 1];
      new;
      assert IntToString(20) == "20" && IntToString(1) == "1";
    }

    /** Handles one press: the first button whose guard holds changes its
        counter; "Generate" returns the settings it launches. */
    method HandlePress(b: Button) returns (launched: Option<SimulationArgs>)
      requires Valid()
      modifies variableValues, peopleChange, closenessChange, infectedChange, connectedChange
      ensures Valid()
      ensures variableValues[..] == Press(old(variableValues[..]), b)
      ensures launched == if b == Generate then Some(GenerateArgs(old(variableValues[..]))) else None
    {
      launched := None;
      var v := variableValues;
      if b == PeoplePlus && v[0] < 60 {
        ChangeCounter(0, 10);
      } else if b == PeopleMinus && v[0] > 10 {
        ChangeCounter(0, -10);
      } else if b == ClosenessPlus && v[1] < 2 {
        ChangeCounter(1, 1);
      } else if b == ClosenessMinus && v[1] > 0 {
        ChangeCounter(1, -1);
      } else if b == InfectedPlus && v[2] < v[0] {
        ChangeCounter(2, 1);
      } else if b == InfectedMinus && v[2] > 0 {
        ChangeCounter(2, -1);
      } else if b == ConnectedPlus && v[3] == 0 {
        ChangeCounter(3, 1);
      } else if b == ConnectedMinus && v[3] == 1 {
        ChangeCounter(3, -1);
      } else if b == Generate {
        launched := Some(SimulationArgs(v[0], DetermineStep(1, v[1]), v[2], DetermineStep(3, v[3])));
      }
    }

    /** The event loop: handles the presses in order. */
    method HandlePresses(presses: seq<Button>) returns (launched: seq<SimulationArgs>)
      requires Valid()
      modifies variableValues, peopleChange, closenessChange, infectedChange, connectedChange
      ensures Valid()
      ensures variableValues[..] == Run(old(variableValues[..]), presses)
      ensures launched == Launches(old(variableValues[..]), presses)
    {
      launched := [];
      ghost var start := variableValues[..];
      var i := 0;
      while i < |presses|
        invariant 0 <= i <= |presses|
        invariant Valid()
        invariant variableValues[..] == Run(start, presses[..i])
        invariant launched == Launches(start, presses[..i])
      {
        RunSnoc(start, presses[..i], presses[i]);
        assert presses[..i + 1] == presses[..i] + [presses[i]];
        var next := HandlePress(presses[i]);
        if next.Some? {
          launched := launched + [next.value];
        }
        i := i + 1;
      }
      assert presses[..i] == presses;
    }

    /** `change_interval` on counter `dataset` and its own value box. */
    method ChangeCounter(dataset: int, delta: int)
      requires Valid() && 0 <= dataset < 4
      modifies variableValues, peopleChange, closenessChange, infectedChange, connectedChange
      ensures Valid()
      ensures variableValues[..] == old(variableValues[..])[dataset := old(variableValues[dataset]) + delta]
    {
      ChangeInterval(variableValues, Box(dataset), delta, dataset);
    }
  }

  /** Opens the window and handles the presses in order; returns the window
      and the simulations launched. */
  method RunInterface(presses: seq<Button>) returns (ui: Interface, launched: seq<SimulationArgs>)
    ensures ui.Valid()
    ensures ui.variableValues[..] == Run(INITIAL_VALUES, presses)
    ensures Settled(ui.variableValues[..])
    ensures launched == Launches(INITIAL_VALUES, presses)
  {
    ui := new Interface();
    launched := ui.HandlePresses(presses);
    ReachableSettled(presses);
  }
}
