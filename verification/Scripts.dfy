/**
 What programs and handlers do, as trees: a handler that is called during a notification
 runs a script, which may notify again.
 */
module Scripts {

  /** Operations one after the other. */
  datatype Script<Op> = Done | Then(op: Op, rest: Script<Op>)

  /** What the handlers called by one notification do, in the order of the calls. */
  datatype Reactions<Op> = Quiet | Reaction(script: Script<Op>, rest: Reactions<Op>)

  /** The order in which a set is visited (address order, unknown to the program). */
  type Order<!T> = set<T> -> seq<T>

  ghost predicate Enumerates<T(!new)>(order: Order<T>) {
    forall s :: multiset(order(s)) == multiset(s)
  }

  /** Everybody in the set is visited, once. */
  lemma OrderMembers<T(!new)>(order: Order<T>, s: set<T>)
    requires Enumerates(order)
    ensures forall x :: x in order(s) <==> x in s
    ensures forall i, j :: 0 <= i < j < |order(s)| ==> order(s)[i] != order(s)[j]
  {
    var visited := order(s);
    assert multiset(visited) == multiset(s);
    forall x ensures x in visited <==> x in s {
      assert x in visited <==> x in multiset(visited);
    }
    forall i, j | 0 <= i < j < |visited| ensures visited[i] != visited[j] {
      assert visited == visited[..i] + [visited[i]] + visited[i + 1..j] + [visited[j]] + visited[j + 1..];
      assert multiset(visited)[visited[i]] == 1;
    }
  }
}
