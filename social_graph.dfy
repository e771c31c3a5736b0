/**
  The contact-tracing graph of social_graph.py: people whose infection flag,
  neighbour map and degrees-apart label are updated in place, and the graph
  that maps identifiers to them. Neighbours are keyed by identifier; the
  whole graph's state is read through the value views `Adjacency()`,
  `InfectedIds()` and `Labels()` of class Graph, whose properties are the
  value-level definitions of module Contacts.
 */
module SocialGraph {
  import opened Base
  import opened Contacts

  /** A person who undergoes contact tracing: a vertex of the graph. */
  class Person {
    const identifier: Id
    const name: string
    const age: int
    const severityLevel: real
    var infected: bool
    /** neighbour identifier -> contact level */
    var neighbours: map<Id, real>
    /** degrees of separation from an infected person; `None` when not calculated */
    var degreesApart: Option<int>

    /** A fresh person: not infected, no neighbours, no degrees-apart label. */
    constructor (identifier: Id, name: string, age: int, severityLevel: real)
      ensures this.identifier == identifier && this.name == name
      ensures this.age == age && this.severityLevel == severityLevel
      ensures !infected && neighbours == map[] && degreesApart == None
    {
      this.identifier := identifier;
      this.name := name;
      this.age := age;
      this.severityLevel := severityLevel;
      infected := false;
      neighbours := map[];
      degreesApart := None;
    }

    /** Reverses the infection status; doing it twice restores it. */
    method ChangeInfectionStatus()
      modifies this`infected
      ensures infected == !old(infected)
    {
      infected := !infected;
    }

    /** The degrees-apart label, or ValueError when it has not been calculated. */
    function GetDegree(): (r: Result<int>)
      reads this`degreesApart
      ensures r.Err? <==> degreesApart.None?
      ensures r.Err? ==> r.error == ValueError
      ensures r.Ok? ==> degreesApart == Some(r.value)
    {
      if degreesApart.Some? then Ok(degreesApart.value) else Err(ValueError)
    }

    /** Resets the label to "not calculated", or to 0 when `zero` holds. */
    method ResetDegree(zero: bool)
      modifies this`degreesApart
      ensures degreesApart == if zero then Some(0) else None
    {
      if zero {
        degreesApart := Some(0);
      } else {
        degreesApart := None;
      }
    }
  }

  /** A weighted graph of people, keeping the level of contact between any two. */
  class Graph {
    /** identifier -> person */
    var people: map<Id, Person>

    /** The people of the graph, as a set of objects. */
    ghost var repr: set<Person>

    /** Each person is filed under their own identifier, `repr` holds exactly
        the people of the graph, and the neighbour maps keep the
        representation invariants of a person (Contacts.WellFormed). */
    ghost predicate Valid()
      reads this, repr`neighbours
    {
      Owned() && WellFormed(Adjacency())
    }

    /** Each person is filed under their own identifier and `repr` holds
        exactly the people of the graph. */
    ghost predicate Owned()
      reads this
    {
      && (forall id :: id in people ==> people[id] in repr && people[id].identifier == id)
      && (forall p :: p in repr ==> p.identifier in people && people[p.identifier] == p)
    }

    /** The neighbour maps, by identifier. */
    ghost function Adjacency(): Adjacency
      reads this, repr`neighbours
    {
      map id | id in people && people[id] in repr :: people[id].neighbours
    }

    /** The identifiers of the infected people. */
    ghost function InfectedIds(): set<Id>
      reads this, repr`infected
    {
      set id | id in people && people[id] in repr && people[id].infected
    }

    /** The degrees-apart labels, by identifier. */
    ghost function Labels(): Labelling
      reads this, repr`degreesApart
    {
      map id | id in people && people[id] in repr :: people[id].degreesApart
    }

    /** An empty graph. */
    constructor ()
      ensures Valid() && people == map[]
    {
      people := map[];
      repr := {};
    }

    /** Adds a fresh person under `identifier` unless one is already there, in
        which case nothing changes. */
    method AddVertex(identifier: Id, name: string, age: int, severityLevel: real)
      requires Valid()
      modifies this
      ensures Valid()
      ensures identifier in old(people) ==> people == old(people)
      ensures identifier !in old(people) ==>
        && people.Keys == old(people.Keys) + {identifier}
        && (forall id :: id in old(people) ==> people[id] == old(people[id]))
        && fresh(people[identifier])
        && people[identifier].name == name && people[identifier].age == age
        && people[identifier].severityLevel == severityLevel
        && !people[identifier].infected
        && people[identifier].neighbours == map[]
        && people[identifier].degreesApart == None
    {
      if identifier !in people {
        var p := new Person(identifier, name, age, severityLevel);
        ghost var adj := Adjacency();
        people := people[identifier := p];
        repr := repr + {p};
        assert Adjacency() == adj[identifier := map[]];
        forall a, b | a in Adjacency() && b in Adjacency()[a]
          ensures b in Adjacency() && b != a && a in Adjacency()[b] && Adjacency()[b][a] == Adjacency()[a][b]
        {
          assert a != identifier && a in adj && b in adj[a];
          assert b in adj && b != identifier;
          assert Adjacency()[a] == adj[a] && Adjacency()[b] == adj[b];
        }
      }
    }

    /** Writes contact level `contactLevel` on both people; raises ValueError,
        changing nothing, when either identifier is absent. */
    method AddEdge(identifier1: Id, identifier2: Id, contactLevel: real) returns (r: Outcome)
      requires Valid() && identifier1 != identifier2
      modifies repr`neighbours
      ensures Valid()
      ensures r == if identifier1 in people && identifier2 in people then Pass else Fail(ValueError)
      ensures r.Pass? ==> Adjacency() == Connect(old(Adjacency()), identifier1, identifier2, contactLevel)
      ensures r.Fail? ==> Adjacency() == old(Adjacency())
    {
      if identifier1 in people && identifier2 in people {
        ghost var adj := Adjacency();
        var person1 := people[identifier1];
        var person2 := people[identifier2];
        person1.neighbours := person1.neighbours[identifier2 := contactLevel];
        person2.neighbours := person2.neighbours[identifier1 := contactLevel];
        assert Adjacency() == Connect(adj, identifier1, identifier2, contactLevel);
        ConnectSound(adj, identifier1, identifier2, contactLevel);
        r := Pass;
      } else {
        r := Fail(ValueError);
      }
    }

    /** The contact level of two people, 0 when they are not adjacent; KeyError
        when either is absent. */
    function GetContactLevel(identifier1: Id, identifier2: Id): (r: Result<real>)
      requires Valid()
      reads this, repr`neighbours
      ensures r.Ok? <==> identifier1 in people && identifier2 in people
      ensures r.Err? ==> r.error == KeyError
      ensures r.Ok? ==> r.value == Weight(Adjacency(), identifier1, identifier2)
    {
      if identifier1 in people && identifier2 in people then
        var person1 := people[identifier1];
        Ok(if identifier2 in person1.neighbours then person1.neighbours[identifier2] else 0.0)
      else
        Err(KeyError)
    }

    /** The neighbours of a person; KeyError when the person is absent. */
    function GetNeighbours(item: Id): (r: Result<set<Id>>)
      requires Valid()
      reads this, repr`neighbours
      ensures r.Ok? <==> item in people
      ensures r.Err? ==> r.error == KeyError
      ensures r.Ok? ==> r.value == Adjacency()[item].Keys
      ensures r.Ok? ==> forall other :: other in r.value ==>
        other in people && other != item && item in Adjacency()[other]
    {
      if item in people then
        assert people[item].neighbours == Adjacency()[item];
        assert forall other :: other in Adjacency()[item] ==> other in Adjacency();
        Ok(people[item].neighbours.Keys)
      else
        Err(KeyError)
    }

    /** The stored contact level from `person1` to `person2`; KeyError when
        `person1` is absent or the two are not adjacent. */
    function GetWeight(person1: Id, person2: Id): (r: Result<real>)
      requires Valid()
      reads this, repr`neighbours
      ensures r.Ok? <==> person1 in people && person2 in Adjacency()[person1]
      ensures r.Err? ==> r.error == KeyError
      ensures r.Ok? ==> r.value == Weight(Adjacency(), person1, person2)
    {
      if person1 in people && person2 in people[person1].neighbours then
        Ok(people[person1].neighbours[person2])
      else
        Err(KeyError)
    }

    /** Marks the given people infected, one at a time in some order. When every
        identifier is present, exactly those people become infected and every
        other flag keeps its value; otherwise KeyError is raised at the first
        absent identifier reached, after some of the present ones were marked. */
    method SetInfected(initInfected: set<Id>) returns (r: Outcome)
      requires Valid()
      modifies repr`infected
      ensures r == if initInfected <= people.Keys then Pass else Fail(KeyError)
      ensures r.Pass? ==> InfectedIds() == old(InfectedIds()) + initInfected
      ensures r.Fail? ==> old(InfectedIds()) <= InfectedIds() <= old(InfectedIds()) + initInfected
    {
      var todo := initInfected;
      while todo != {}
        invariant todo <= initInfected
        invariant initInfected - todo <= people.Keys
        invariant InfectedIds() == old(InfectedIds()) + (initInfected - todo)
        invariant Valid()
        decreases todo
      {
        var identifier :| identifier in todo;
        if identifier !in people {
          return Fail(KeyError);
        }
        ghost var before := InfectedIds();
        people[identifier].infected := true;
        assert forall id :: id in people && id != identifier ==> people[id] != people[identifier];
        assert InfectedIds() == before + {identifier};
        todo := todo - {identifier};
      }
      return Pass;
    }

    /** Resets every degrees-apart label to "not calculated". */
    method ResetDegrees()
      requires Valid()
      modifies repr`degreesApart
      ensures Valid() && Adjacency() == old(Adjacency()) && InfectedIds() == old(InfectedIds())
      ensures forall id :: id in people ==> people[id].degreesApart == None
    {
      var todo := people.Keys;
      while todo != {}
        invariant Valid() && Adjacency() == old(Adjacency()) && InfectedIds() == old(InfectedIds())
        invariant todo <= people.Keys
        invariant forall id :: id in people && id !in todo ==> people[id].degreesApart == None
        decreases todo
      {
        var identifier :| identifier in todo;
        people[identifier].ResetDegree(false);
        todo := todo - {identifier};
      }
    }

    /** The neighbour maps of the people are those of `adj`. */
    ghost predicate NeighboursAre(adj: Adjacency)
      reads this, repr`neighbours
    {
      && adj.Keys == people.Keys
      && forall id :: id in people && people[id] in repr ==> people[id].neighbours == adj[id]
    }

    /** The depth-first walk of `_Person.calculate_degrees_apart`, run for the
        person filed under `identifier` at depth `currDegree` over the
        neighbour maps `adj`. `visited` holds the people on the current call
        path and is passed by value (the source hands each child a copy). A
        non-initial call at depth 0 returns at once and changes nothing.
        Otherwise every label ends as the smaller of its old value and the
        depth at which the walk enters that person (Contacts.Reach): entered
        at `currDegree`, each neighbour off the call path one hop deeper, and
        so on. */
    method CalculateDegreesApart(identifier: Id, currDegree: nat, visited: set<Id>, initCall: bool, ghost adj: Adjacency)
      requires Owned() && NeighboursAre(adj) && Closed(adj)
      requires identifier in people && identifier !in visited
      modifies repr`degreesApart
      ensures !initCall && currDegree == 0 ==> Labels() == old(Labels())
      ensures initCall || currDegree != 0 ==>
        Labels() == AfterWalk(old(Labels()), adj, identifier, currDegree, visited)
      decreases people.Keys - visited, 0
    {
      if !initCall && currDegree == 0 {
        return;
      }
      var person := people[identifier];
      ghost var before := Labels();
      Enter(identifier, currDegree);
      ghost var entered := Labels();

      var pathVisited := visited + {identifier};
      var todo := person.neighbours.Keys;
      ghost var done: set<Id> := {};
      while todo != {}
        invariant Owned() && NeighboursAre(adj)
        invariant todo <= adj[identifier].Keys
        invariant forall x :: x in done <==> x in adj[identifier] && x !in pathVisited && x !in todo
        invariant Labels() == AfterWalks(entered, adj, done, currDegree + 1, pathVisited)
        decreases todo
      {
        var neighbour :| neighbour in todo;
        done := VisitNeighbour(identifier, neighbour, currDegree, pathVisited, adj, entered, done);
        todo := todo - {neighbour};
      }
      assert done == adj[identifier].Keys - (visited + {identifier});
      ReachUnfold(adj, before, identifier, currDegree, visited);
    }

    /** One turn of the walk's loop: the walk continues into `neighbour`, one
        hop deeper, unless `neighbour` is already on the call path. `done`
        holds the neighbours walked into so far. */
    method VisitNeighbour(identifier: Id, neighbour: Id, currDegree: nat, pathVisited: set<Id>,
                          ghost adj: Adjacency, ghost entered: Labelling, ghost done: set<Id>)
      returns (ghost done': set<Id>)
      requires Owned() && NeighboursAre(adj) && Closed(adj)
      requires identifier in people && identifier in pathVisited && neighbour in adj[identifier]
      requires done <= adj.Keys && done !! pathVisited && neighbour !in done
      requires Labels() == AfterWalks(entered, adj, done, currDegree + 1, pathVisited)
      modifies repr`degreesApart
      ensures done' == if neighbour in pathVisited then done else done + {neighbour}
      ensures Labels() == AfterWalks(entered, adj, done', currDegree + 1, pathVisited)
      decreases people.Keys - pathVisited, 1
    {
      done' := done;
      if neighbour !in pathVisited {
        CalculateDegreesApart(neighbour, currDegree + 1, pathVisited, false, adj);
        ReachAllStep(adj, entered, done, neighbour, currDegree + 1, pathVisited);
        done' := done + {neighbour};
      }
    }

    /** The walk's first step: the person's label drops to `currDegree` when
        it is missing or larger. */
    method Enter(identifier: Id, currDegree: nat)
      requires Owned() && identifier in people
      modifies repr`degreesApart
      ensures Labels() == Apply(old(Labels()), map[identifier := currDegree])
    {
      var person := people[identifier];
      if person.degreesApart.None? || currDegree < person.degreesApart.value {
        person.degreesApart := Some(currDegree);
      }
      assert forall id :: id in people && id != identifier ==> people[id] != person;
    }

    /** The first loop of the recalculation: sets every infected person's
        label to 0 and collects the infected identifiers. Expects every label
        to be `None`, as the reset leaves them. */
    method SeedInfected() returns (infectedPeople: set<Id>)
      requires Valid() && forall id :: id in people ==> people[id].degreesApart == None
      modifies repr`degreesApart
      ensures Valid() && Adjacency() == old(Adjacency()) && InfectedIds() == old(InfectedIds())
      ensures infectedPeople == InfectedIds()
      ensures Labels() == Seeded(people.Keys, infectedPeople)
    {
      infectedPeople := {};
      var todo := people.Keys;
      while todo != {}
        invariant Valid() && Adjacency() == old(Adjacency()) && InfectedIds() == old(InfectedIds())
        invariant todo <= people.Keys
        invariant infectedPeople == InfectedIds() - todo
        invariant forall id :: id in people ==>
          people[id].degreesApart == if id in infectedPeople then Some(0) else None
        decreases todo
      {
        var identifier :| identifier in todo;
        if people[identifier].infected {
          people[identifier].ResetDegree(true);
          infectedPeople := infectedPeople + {identifier};
        }
        todo := todo - {identifier};
      }
      assert Labels() == Seeded(people.Keys, infectedPeople);
    }

    /** The second loop of the recalculation: a walk at depth 0 from every
        infected person, starting from the seeded labels. */
    method WalkFromInfected(infectedPeople: set<Id>, ghost adj: Adjacency)
      requires Owned() && NeighboursAre(adj) && Closed(adj) && infectedPeople <= adj.Keys
      requires Labels() == Seeded(people.Keys, infectedPeople)
      modifies repr`degreesApart
      ensures Labels() == DegreesApart(adj, infectedPeople)
    {
      ghost var seeded := Labels();
      assert seeded == Seeded(adj.Keys, infectedPeople);
      var seeds := infectedPeople;
      ghost var done: set<Id> := {};
      while seeds != {}
        invariant Owned() && NeighboursAre(adj)
        invariant seeds <= infectedPeople && done == infectedPeople - seeds
        invariant Labels() == AfterWalks(seeded, adj, done, 0, {})
        decreases seeds
      {
        var infectedPerson :| infectedPerson in seeds;
        CalculateDegreesApart(infectedPerson, 0, {}, true, adj);
        ReachAllStep(adj, seeded, done, infectedPerson, 0, {});
        seeds := seeds - {infectedPerson};
        done := done + {infectedPerson};
      }
      assert done == infectedPeople;
    }

    /** Recalculates every degrees-apart label: all are reset, the infected
        people are set to 0, and a walk is run from each infected person. The
        result is the degrees-apart labelling of the graph and its infected
        people (Contacts.IsDegreeLabelling); only labels change (the
        frame is `repr\`degreesApart`), so a second call gives the same labels. */
    method RecalculateDegrees()
      requires Valid()
      modifies repr`degreesApart
      ensures Valid()
      ensures Labels() == DegreesApart(old(Adjacency()), old(InfectedIds()))
      ensures IsDegreeLabelling(old(Adjacency()), old(InfectedIds()), Labels())
    {
      ghost var adj, infected := Adjacency(), InfectedIds();
      ResetDegrees();
      var infectedPeople := SeedInfected();
      assert NeighboursAre(adj);
      WalkFromInfected(infectedPeople, adj);
      DegreesApartCorrect(adj, infected);
    }
  }
}
