# COVID-19 contact visualizer: the contact graph, its degrees-apart labelling, colours and the conditions menu

This project models the computational core of a COVID-19 contact visualizer.

- **The contact graph.** People are the vertices. Each person has an infection flag, a map from neighbours to levels of contact, and a "degrees apart" label. The label counts the hops to the nearest infected person, or is missing when it has not been calculated.
  - `SocialGraph` models social_graph.py.
  - `LegacyGraph` models its older copy, graph.py.
  - Both classes update fields and dictionaries in place. The model keeps that: `Person` and `Graph` are classes, and their methods state the new state.
- **The labelling.** `recalculate_degrees` clears every label, sets each infected person's label to 0, and then runs a recursive depth-first walk from each infected person.
  - The walk enters a person at some depth and keeps the smaller of the old label and that depth. It then recurses into each neighbour that is not on the current call path, one hop deeper, handing each call its own copy of the path.
  - Module `Contacts` gives the walk a closed form on values. `Reach` gives the depth at which the walk enters each person, `Meet` takes minima, and `Apply` lowers labels.
  - The methods are proved equal to that closed form. The closed form is proved to be the minimum hop count to an infected person, whatever order the sets are iterated in.
- **The colours** (`Colouring`). These are the colour of a person given their label, and the CSS text `rgb(r, g, b)` of a colour.
- **The conditions menu** (`Menu`). It holds four counters: people, closeness, infected and connected. Each counter has a value box and guarded "+" and "-" buttons, and a "Generate" button passes the settings on.
  - The counters live in an `array`, and the boxes are objects whose text is rewritten.
  - The button rule is also stated as a function on sequences, with reachability invariants.
- **Numerals** (`Decimal`). This is Python's `str` on integers, with a parser that reads it back. The menu and the colour text use it.

The labelling is a depth-first walk over simple paths, not a breadth-first search, and the model follows the code. `Contacts.DegreesApartCorrect` proves that the walk still gives the minimum hop count, because it explores every simple path from each infected person.

## Model

| member | source | states |
|---|---|---|
| Contacts.Weight | social_graph.py:161-169 | definition only: the stored level when the two are adjacent, 0 otherwise; `GetContactLevel` and `GetWeight` are proved to return it |
| Contacts.Connect | social_graph.py:155-156 | keeps the same people; writes the level on both people, as `ConnectSound` states and `AddEdge` is proved to do |
| Contacts.ConnectSound | social_graph.py:142-159 | writing an edge keeps every neighbour a person of the graph, keeps nobody their own neighbour and keeps each level stored on both people; reads back as the new weight in both directions; changes no other contact level |
| Contacts.Entered | social_graph.py:74-75 | the label written on entry is never above the old label or the entry depth, and is one of the two |
| Contacts.Reach | social_graph.py:63-80 | definition only: the depths at which the walk enters people, the start at its depth and each neighbour off the call path one hop deeper; `CalculateDegreesApart` is proved equal to it (through `AfterWalk`), and `ReachSound`, `ReachComplete` and `ReachIsDistance` state what it means |
| Contacts.ReachAll | social_graph.py:78-80 | definition only: the combined depths of walks from a set of neighbours; `VisitNeighbour`'s loop is proved equal to it |
| Contacts.ReachAllSplit | social_graph.py:78-80 | walking a set of neighbours gives the same depths whichever member is walked first (set iteration order does not matter) |
| Contacts.ReachSound | social_graph.py:63-80 | every depth the walk assigns is the start depth plus the hops of a path from the start person that avoids the visited set |
| Contacts.ReachAllSound | social_graph.py:78-80 | the same for a walk into a set of neighbours |
| Contacts.ReachComplete | social_graph.py:63-80 | every simple path from the start person that avoids the visited set reaches a person the walk enters, at a depth no greater than the path's hop count |
| Contacts.ReachAllComplete | social_graph.py:78-80 | the same for a walk into a set of neighbours |
| Contacts.ReachBoundsAllPaths | graph.py:61-74 | from a fresh visited set, every path (simple or not) from the start bounds the depth the walk gives its last person |
| Contacts.ReachIsDistance | graph.py:61-74 | from a fresh visited set, the walk enters exactly the people reachable from the start, each at the start depth plus the hop distance: attained by a path and bounded by every path |
| Contacts.WalkFromPerson | graph.py:61-74 | one walk never raises a label, leaves unreachable people unchanged, puts every reachable label at or below every path's depth, and a changed label equals some path's depth |
| Contacts.Seeded | social_graph.py:180-187 | after the reset and the first loop, the infected people are labelled 0 and all other people `None` |
| Contacts.DegreesApart | social_graph.py:177-191 | definition only: the seeded labels after a walk at depth 0 from every infected person; `RecalculateDegrees` is proved equal to it and `DegreesApartCorrect` states what it means |
| Contacts.DegreesApartCorrect | social_graph.py:177-191 | the labelling after the recalculation is the degrees-apart labelling: a label exists exactly for people with a path from an infected person, and it equals the fewest hops over all such paths |
| Contacts.InfectedAtZero | social_graph.py:184-186 | in a degrees-apart labelling every infected person has label 0 |
| Contacts.NoneIffUnreachable | social_graph.py:177-191 | in a degrees-apart labelling a label is `None` exactly when no infected person has a path to that person |
| Contacts.DegreeLabellingUnique | social_graph.py:177-191 | two degrees-apart labellings of the same graph and infected set are equal, so a second recalculation gives the same labels |
| SocialGraph.Person.constructor | social_graph.py:47-55 | a new person keeps the given identifier, name, age and severity, is not infected, has no neighbours and no label |
| SocialGraph.Person.ChangeInfectionStatus | social_graph.py:58-60 | the flag is negated, so two calls restore it |
| SocialGraph.Person.GetDegree | social_graph.py:82-88 | returns the label; raises ValueError exactly when the label is `None` |
| SocialGraph.Person.ResetDegree | social_graph.py:90-97 | the label becomes 0 when `zero` holds, `None` otherwise |
| SocialGraph.Graph.constructor | social_graph.py:110-112 | an empty graph |
| SocialGraph.Graph.AddVertex | social_graph.py:136-140 | an absent identifier gets a fresh person with the given fields, no infection, no neighbours and no label, and other entries are kept; a present identifier leaves the graph unchanged |
| SocialGraph.Graph.AddEdge | social_graph.py:142-159 | with both identifiers present the neighbour maps become `Connect` of the old ones; otherwise ValueError and nothing changes; the graph invariants are kept |
| SocialGraph.Graph.GetContactLevel | social_graph.py:161-169 | the stored level when adjacent, 0 when not; KeyError exactly when either identifier is absent |
| SocialGraph.Graph.GetNeighbours | social_graph.py:118-120 | the person's neighbours, each a person of the graph who has this person as a neighbour; KeyError exactly when the person is absent |
| SocialGraph.Graph.GetWeight | social_graph.py:122-124 | the stored level; KeyError exactly when the first person is absent or the two are not adjacent |
| SocialGraph.Graph.SetInfected | social_graph.py:171-175 | when every identifier is present the infected set grows by exactly the given ones and no other flag changes; otherwise KeyError, with only some of the given people marked |
| SocialGraph.Graph.ResetDegrees | social_graph.py:193-197 | every label becomes `None`; neighbours and infection flags are unchanged |
| SocialGraph.Graph.CalculateDegreesApart | social_graph.py:63-80 | a non-initial call at depth 0 changes nothing; otherwise the labels become the old labels lowered by the walk's closed form `AfterWalk` |
| SocialGraph.Graph.VisitNeighbour | social_graph.py:77-80 | one turn of the walk's loop: recurses one hop deeper into a neighbour off the call path and adds its walk to the labels; skips a neighbour on the path |
| SocialGraph.Graph.Enter | social_graph.py:74-75 | the person's label drops to the depth when missing or larger; no other label changes |
| SocialGraph.Graph.SeedInfected | social_graph.py:182-187 | collects exactly the infected identifiers and labels them 0, all others `None`; neighbours and flags unchanged |
| SocialGraph.Graph.WalkFromInfected | social_graph.py:189-191 | after a walk from every infected person the labels are the closed-form `DegreesApart` |
| SocialGraph.Graph.RecalculateDegrees | social_graph.py:177-191 | the labels become the degrees-apart labelling of the graph and its infected people; the invariants are kept and only labels change |
| LegacyGraph.Person.constructor | graph.py:42-50 | a new person keeps the given fields, is not infected, has no neighbours and no label |
| LegacyGraph.Person.ChangeInfectionStatus | graph.py:53-55 | the flag is negated, so two calls restore it |
| LegacyGraph.Person.GetDegree | graph.py:76-82 | returns the label; raises ValueError exactly when the label is `None` |
| LegacyGraph.Person.ResetDegree | graph.py:84-86 | the label becomes `None` |
| LegacyGraph.Graph.constructor | graph.py:99-101 | an empty graph |
| LegacyGraph.Graph.AddVertex | graph.py:103-107 | an absent identifier gets a fresh person and other entries are kept; a present identifier leaves the graph unchanged |
| LegacyGraph.Graph.AddEdge | graph.py:109-126 | with both identifiers present the neighbour maps become `Connect` of the old ones; otherwise ValueError and nothing changes |
| LegacyGraph.Graph.GetContactLevel | graph.py:128-136 | the stored level when adjacent, 0 when not; KeyError exactly when either identifier is absent |
| LegacyGraph.Graph.CalculateDegreesApart | graph.py:61-74 | the labels become the old labels lowered by the walk's closed form `AfterWalk`, with no early return |
| LegacyGraph.Graph.VisitNeighbour | graph.py:71-74 | one turn of the walk's loop, as in the newer copy |
| LegacyGraph.Graph.Enter | graph.py:68-69 | the person's label drops to the depth when missing or larger; no other label changes |
| Decimal.NatToString | menu.py:146 | the numeral is non-empty, all digits, and has no leading zero |
| Decimal.IntToString | menu.py:146 | the numeral starts with a minus sign exactly for negative numbers |
| Decimal.IntToStringRoundTrip | menu.py:146 | reading a numeral back gives the number |
| Decimal.IntToStringInjective | colouring.py:56 | different numbers have different numerals |
| Colouring.Trunc | colouring.py:44-46 | `int()` on a float truncates toward zero |
| Colouring.Channel | colouring.py:44-46 | definition only: one channel moved the fill's share of the way from the infected colour to 255, truncated; `DegreesApartGetColour` states its bounds |
| Colouring.DegreesApartGetColour | colouring.py:27-46 | `None` gives white and 0 gives the infected colour; any other label has red 255 and equal green and blue; with the fill in [0, 1) green is in [0, 254], and with the fill in [0, 1] it is in [0, 255] |
| Colouring.ColourLightensWithFill | colouring.py:42-46 | a larger fill never gives a darker green or blue |
| Colouring.ColourDistinguishesLabels | colouring.py:37-46 | with the fill in [0, 1) only a missing label is white, and only label 0 or a fill that truncates to 0 gives the infected colour |
| Colouring.RgbToStr | colouring.py:50-56 | the text starts with "rgb(" and ends with ")" |
| Colouring.RgbToStrRoundTrip | colouring.py:50-56 | parsing the text gives back the colour |
| Colouring.RgbToStrInjective | colouring.py:50-56 | different colours have different texts |
| Colouring.WhiteText | colouring.py:53-54 | white is written "rgb(255, 255, 255)" |
| Menu.DetermineStep | menu.py:152-165 | closeness 0, 1, 2 give "low", "medium", "high" and any other value gives none; for any other dataset 0 gives "no" and anything else "yes" |
| Menu.DetermineStepRoundTrip | menu.py:152-165 | on the values the buttons allow, the word names the value |
| Menu.DisplayTextReadsBack | menu.py:142-147 | every value box can be read back as its counter's value |
| Menu.DisplayText | menu.py:142-147 | definition only: the word for datasets 1 and 3, the numeral otherwise; `DisplayTextReadsBack` proves it names the value |
| Menu.TextBox.constructor | menu.py:41-52 | a value box showing the given text |
| Menu.ChangeInterval | menu.py:139-149 | adds the delta to one counter and leaves the other three; the box shows the word for datasets 1 and 3 and the numeral otherwise |
| Menu.Change | menu.py:96-119 | a press changes one counter, people by 10 and the others by 1; "+" on the infected acts exactly while it is below the people; "-" on the people acts exactly while they are above 10 |
| Menu.Press | menu.py:96-119 | keeps four counters; applies the change `Change` gives; `HandlePress` is proved equal to it |
| Menu.Run | menu.py:87-119 | keeps four counters; the counters after a series of presses, handled in order; `HandlePresses` is proved equal to it |
| Menu.GenerateArgs | menu.py:122-126 | definition only: (people, closeness word, infected, connected word); `HandlePress` returns it on "Generate" and `GenerateArgsNamed` states its words |
| Menu.Launches | menu.py:87-127 | definition only: the settings of every "Generate" in a series of presses, in order; `HandlePresses` and `RunInterface` are proved to return it |
| Menu.PressKeepsSettled | menu.py:96-119 | a press keeps the people a multiple of 10 in [10, 60], closeness in [0, 2], connected in {0, 1} and the infected non-negative |
| Menu.RunKeepsSettled | menu.py:87-119 | so does any series of presses |
| Menu.ReachableSettled | menu.py:85-119 | every state reachable from [20, 1, 1, 1] is settled |
| Menu.InfectedRisesOnlyBelowPopulation | menu.py:108-110 | the infected count only rises on "+" and only while it is below the people |
| Menu.InfectedCanExceedPopulation | menu.py:99-100 | ten "+" on the infected and one "-" on the people reach 11 infected among 10 people |
| Menu.GenerateArgsNamed | menu.py:122-126 | from a settled state, "Generate" passes a word for closeness and for connected, each naming its counter's value |
| Menu.RunSnoc | menu.py:87-94 | presses are handled in order: the state and launches after one more press extend those before |
| Menu.Interface.constructor | menu.py:41-52 | the counters start at [20, 1, 1, 1] and the boxes read "20", "medium", "1", "yes", which is what each box shows for its counter |
| Menu.Interface.ChangeCounter | menu.py:96-119 | `change_interval` on a counter and its own box keeps every box showing its counter |
| Menu.Interface.HandlePress | menu.py:93-127 | the first button whose guard holds changes its counter as `Press` says; "Generate" returns the settings `GenerateArgs` gives; the boxes keep showing their counters |
| Menu.Interface.HandlePresses | menu.py:87-129 | handling a series of presses gives the state `Run` and the launches `Launches` of the series |
| Menu.RunInterface | menu.py:16-136 | from the opening window a series of presses leaves a settled state and launches exactly `Launches` of the series |

## Left out

- The drawing code is not part of this model: visualization.py, the `to_nx` conversions (social_graph.py:199-247), `get_names` and `get_people`. They build networkx and plotly objects, and networkx and plotly are libraries outside the model.
- File I/O is not part of this model: `load_graph_csv` and `load_graph_json`. Random test-graph generation is not part of this model either: data_processing.py is driven by `random`.
- simulation.py is not part of this model. It is an unfinished stub, so "Generate" is modelled only by the arguments it passes.
- main.py is not part of this model. Nor are menu.py's window, event pump, clock, quit event, drawing and `textbox.rebuild()`. The event loop is modelled as a finite series of button presses.
- The exponential curve `percent_fill` (colouring.py:42) uses floating-point `e**` and `log`. It is a parameter of `Colouring.DegreesApartGetColour`, so the (255, 169, 169) example at colouring.py:34 is not derived.
- The `@cache` memoisation in colouring.py is not modelled. Results do not depend on it.
- Neighbour dictionaries are keyed by identifier, not by person object. Identifiers are unique in a graph, so the two keyings correspond.
  - `SocialGraph.Graph.GetNeighbours` returns identifiers where the source returns person objects.
  - `SocialGraph.Graph.GetWeight` takes the second person as an identifier.
- Contact levels, ages and severities are `real` and `int` values that are only stored and returned. The stated ranges (age ≥ 0, severity bounds) are not checked by the source, and are not checked here either.
- SocialGraph.Graph.CalculateDegreesApart: the depth is a `nat`. The source is only ever called with 0 or a parent's depth plus one, so negative starting depths are not modelled. The legacy copy takes any `int`.
- SocialGraph.Graph.CalculateDegreesApart: `visited` is passed by value. The source adds the person to the caller's set before copying it for the children, and no caller reads that set afterwards, so the model does not show that change to the caller's set.
- SocialGraph.Graph.AddEdge: requires two different identifiers. This is a stated precondition of `add_edge` (social_graph.py:148-149), and the same holds for the legacy copy.
- Graph walks take the neighbour maps as a ghost argument `adj` equal to the graph's current maps. This names the graph the walk runs over; it is not an extra demand on callers.
- `Enter`, `VisitNeighbour`, `SeedInfected`, `WalkFromInfected` and `ChangeCounter` are not separate functions in the source. They are the bodies of the source's loops and branches, split out so each can carry its own contract.
- Menu.ChangeInterval: requires `0 <= dataset < len(variable_values)`. Python would also accept negative indices, but every caller passes 0 to 3.
- The menu counters are modelled as integers. The source annotates them as floats but only ever adds integer deltas to integer starts.
- Menu.GenerateArgs has no contract of its own. What "Generate" passes is stated by `Menu.GenerateArgsNamed` and `Menu.Interface.HandlePress`.
