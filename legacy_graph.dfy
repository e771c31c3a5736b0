/**
  The older copy of the contact graph, graph.py: the same people and graph as
  module SocialGraph, with a walk that has no `init_call` flag and a label
  reset that always clears. Neighbours are keyed by identifier and the state
  is read through the value views `Adjacency()` and `Labels()`.
 */
module LegacyGraph {
  import opened Base
  import opened Contacts

  /** A person who undergoes contact tracing: a vertex of the graph. */
  class Person {
    const identifier: Id
    const name: string
    const age: int
    const severityLevel: real
    var infected: bool
    /** neighbour identifier -> contact level */
    var neighbours: map<Id, real>
    /** degrees of separation from an infected person; `None` when not calculated */
    var degreesApart: Option<int>

    /** A fresh person: not infected, no neighbours, no degrees-apart label. */
    constructor (identifier: Id, name: string, age: int, severityLevel: real)
      ensures this.identifier == identifier && this.name == name
      ensures this.age == age && this.severityLevel == severityLevel
      ensures !infected && neighbours == map[] && degreesApart == None
    {
      this.identifier := identifier;
      this.name := name;
      this.age := age;
      this.severityLevel := severityLevel;
      infected := false;
      neighbours := map[];
      degreesApart := None;
    }

    /** Reverses the infection status; doing it twice restores it. */
    method ChangeInfectionStatus()
      modifies this`infected
      ensures infected == !old(infected)
    {
      infected := !infected;
    }

    /** The degrees-apart label, or ValueError when it has not been calculated. */
    function GetDegree(): (r: Result<int>)
      reads this`degreesApart
      ensures r.Err? <==> degreesApart.None?
      ensures r.Err? ==> r.error == ValueError
      ensures r.Ok? ==> degreesApart == Some(r.value)
    {
      if degreesApart.Some? then Ok(degreesApart.value) else Err(ValueError)
    }

    /** Resets the label to "not calculated". */
    method ResetDegree()
      modifies this`degreesApart
      ensures degreesApart == None
    {
      degreesApart := None;
    }
  }

  /** A weighted graph of people, keeping the level of contact between any two. */
  class Graph {
    /** identifier -> person */
    var people: map<Id, Person>

    /** The people of the graph, as a set of objects. */
    ghost var repr: set<Person>

    /** Each person is filed under their own identifier, `repr` holds exactly
        the people of the graph, and the neighbour maps keep the
        representation invariants of a person (Contacts.WellFormed). */
    ghost predicate Valid()
      reads this, repr`neighbours
    {
      Owned() && WellFormed(Adjacency())
    }

    /** Each person is filed under their own identifier and `repr` holds
        exactly the people of the graph. */
    ghost predicate Owned()
      reads this
    {
      && (forall id :: id in people ==> people[id] in repr && people[id].identifier == id)
      && (forall p :: p in repr ==> p.identifier in people && people[p.identifier] == p)
    }

    /** The neighbour maps, by identifier. */
    ghost function Adjacency(): Adjacency
      reads this, repr`neighbours
    {
      map id | id in people && people[id] in repr :: people[id].neighbours
    }

    /** The degrees-apart labels, by identifier. */
    ghost function Labels(): Labelling
      reads this, repr`degreesApart
    {
      map id | id in people && people[id] in repr :: people[id].degreesApart
    }

    /** An empty graph. */
    constructor ()
      ensures Valid() && people == map[]
    {
      people := map[];
      repr := {};
    }

    /** Adds a fresh person under `identifier` unless one is already there, in
        which case nothing changes. */
    method AddVertex(identifier: Id, name: string, age: int, severityLevel: real)
      requires Valid()
      modifies this
      ensures Valid()
      ensures identifier in old(people) ==> people == old(people)
      ensures identifier !in old(people) ==>
        && people.Keys == old(people.Keys) + {identifier}
        && (forall id :: id in old(people) ==> people[id] == old(people[id]))
        && fresh(people[identifier])
        && people[identifier].name == name && people[identifier].age == age
        && people[identifier].severityLevel == severityLevel
        && !people[identifier].infected
        && people[identifier].neighbours == map[]
        && people[identifier].degreesApart == None
    {
      if identifier !in people {
        var p := new Person(identifier, name, age, severityLevel);
        ghost var adj := Adjacency();
        people := people[identifier := p];
        repr := repr + {p};
        assert Adjacency() == adj[identifier := map[]];
        forall a, b | a in Adjacency() && b in Adjacency()[a]
          ensures b in Adjacency() && b != a && a in Adjacency()[b] && Adjacency()[b][a] == Adjacency()[a][b]
        {
          assert a != identifier && a in adj && b in adj[a];
          assert b in adj && b != identifier;
          assert Adjacency()[a] == adj[a] && Adjacency()[b] == adj[b];
        }
      }
    }

    /** Writes contact level `contactLevel` on both people; raises ValueError,
        changing nothing, when either identifier is absent. */
    method AddEdge(identifier1: Id, identifier2: Id, contactLevel: real) returns (r: Outcome)
      requires Valid() && identifier1 != identifier2
      modifies repr`neighbours
      ensures Valid()
      ensures r == if identifier1 in people && identifier2 in people then Pass else Fail(ValueError)
      ensures r.Pass? ==> Adjacency() == Connect(old(Adjacency()), identifier1, identifier2, contactLevel)
      ensures r.Fail? ==> Adjacency() == old(Adjacency())
    {
      if identifier1 in people && identifier2 in people {
        ghost var adj := Adjacency();
        var person1 := people[identifier1];
        var person2 := people[identifier2];
        person1.neighbours := person1.neighbours[identifier2 := contactLevel];
        person2.neighbours := person2.neighbours[identifier1 := contactLevel];
        assert Adjacency() == Connect(adj, identifier1, identifier2, contactLevel);
        ConnectSound(adj, identifier1, identifier2, contactLevel);
        r := Pass;
      } else {
        r := Fail(ValueError);
      }
    }

    /** The contact level of two people, 0 when they are not adjacent; KeyError
        when either is absent. */
    function GetContactLevel(identifier1: Id, identifier2: Id): (r: Result<real>)
      requires Valid()
      reads this, repr`neighbours
      ensures r.Ok? <==> identifier1 in people && identifier2 in people
      ensures r.Err? ==> r.error == KeyError
      ensures r.Ok? ==> r.value == Weight(Adjacency(), identifier1, identifier2)
    {
      if identifier1 in people && identifier2 in people then
        var person1 := people[identifier1];
        Ok(if identifier2 in person1.neighbours then person1.neighbours[identifier2] else 0.0)
      else
        Err(KeyError)
    }

    /** The neighbour maps of the people are those of `adj`. */
    ghost predicate NeighboursAre(adj: Adjacency)
      reads this, repr`neighbours
    {
      && adj.Keys == people.Keys
      && forall id :: id in people && people[id] in repr ==> people[id].neighbours == adj[id]
    }

    /** The depth-first walk of `_Person.calculate_degrees_apart` in graph.py,
        run for the person filed under `identifier` at depth `currDegree` over
        the neighbour maps `adj`, with `visited` the people on the current call
        path, passed by value. Every label ends as the smaller of its old value
        and the depth at which the walk enters that person (Contacts.Reach);
        ReachIsDistance says what those depths are when the walk starts with
        nothing visited. */
    method CalculateDegreesApart(identifier: Id, currDegree: int, visited: set<Id>, ghost adj: Adjacency)
      requires Owned() && NeighboursAre(adj) && Closed(adj)
      requires identifier in people && identifier !in visited
      modifies repr`degreesApart
      ensures Labels() == AfterWalk(old(Labels()), adj, identifier, currDegree, visited)
      decreases people.Keys - visited, 0
    {
      var person := people[identifier];
      ghost var before := Labels();
      Enter(identifier, currDegree);
      ghost var entered := Labels();

      var pathVisited := visited + {identifier};
      var todo := person.neighbours.Keys;
      ghost var done: set<Id> := {};
      while todo != {}
        invariant Owned() && NeighboursAre(adj)
        invariant todo <= adj[identifier].Keys
        invariant forall x :: x in done <==> x in adj[identifier] && x !in pathVisited && x !in todo
        invariant Labels() == AfterWalks(entered, adj, done, currDegree + 1, pathVisited)
        decreases todo
      {
        var neighbour :| neighbour in todo;
        done := VisitNeighbour(identifier, neighbour, currDegree, pathVisited, adj, entered, done);
        todo := todo - {neighbour};
      }
      assert done == adj[identifier].Keys - (visited + {identifier});
      ReachUnfold(adj, before, identifier, currDegree, visited);
    }

    /** One turn of the walk's loop: the walk continues into `neighbour`, one
        hop deeper, unless `neighbour` is already on the call path. `done`
        holds the neighbours walked into so far. */
    method VisitNeighbour(identifier: Id, neighbour: Id, currDegree: int, pathVisited: set<Id>,
                          ghost adj: Adjacency, ghost entered: Labelling, ghost done: set<Id>)
      returns (ghost done': set<Id>)
      requires Owned() && NeighboursAre(adj) && Closed(adj)
      requires identifier in people && identifier in pathVisited && neighbour in adj[identifier]
      requires done <= adj.Keys && done !! pathVisited && neighbour !in done
      requires Labels() == AfterWalks(entered, adj, done, currDegree + 1, pathVisited)
      modifies repr`degreesApart
      ensures done' == if neighbour in pathVisited then done else done + {neighbour}
      ensures Labels() == AfterWalks(entered, adj, done', currDegree + 1, pathVisited)
      decreases people.Keys - pathVisited, 1
    {
      done' := done;
      if neighbour !in pathVisited {
        CalculateDegreesApart(neighbour, currDegree + 1, pathVisited, adj);
        ReachAllStep(adj, entered, done, neighbour, currDegree + 1, pathVisited);
        done' := done + {neighbour};
      }
    }

    /** The walk's first step: the person's label drops to `currDegree` when
        it is missing or larger. */
    method Enter(identifier: Id, currDegree: int)
      requires Owned() && identifier in people
      modifies repr`degreesApart
      ensures Labels() == Apply(old(Labels()), map[identifier := currDegree])
    {
      var person := people[identifier];
      if person.degreesApart.None? || currDegree < person.degreesApart.value {
        person.degreesApart := Some(currDegree);
      }
      assert forall id :: id in people && id != identifier ==> people[id] != person;
    }
  }
}
