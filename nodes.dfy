/** A city of the flight graph with its best known distance from the start
    and the city it is best reached from. */
module Nodes {
  import opened Wrappers

  /** A distance that is either a natural number or not yet known (+infinity). */
  datatype Dist = Infinity | Finite(n: nat)

  /** Adding a route length; infinity absorbs it. */
  function Plus(d: Dist, w: nat): Dist
  {
    match d
    case Infinity => Infinity
    case Finite(n) => Finite(n + w)
  }

  /** The strict order on distances; infinity is below nothing. */
  predicate Less(a: Dist, b: Dist)
  {
    match (a, b)
    case (Finite(x), Finite(y)) => x < y
    case (Finite(_), Infinity) => true
    case (Infinity, _) => false
  }

  predicate AtMost(a: Dist, b: Dist)
  {
    !Less(b, a)
  }

  /** The name of a city, its `Value` and its `PreviousNode`, held by name. */
  datatype Node = Node(name: string, value: Dist, previous: Option<string>)

  /** A city as the loader creates it: unreached and without predecessor. */
  function NewNode(name: string): (n: Node)
    ensures n.name == name && n.value == Infinity && n.previous == None
  {
    Node(name, Infinity, None)
  }
}
