/** The task record of the simulated-annealing scheduler: a named job with a
    duration and the list of tasks it depends on. Tasks are compared by
    reference, so the model uses a class. */
module AnnealingTask {

  class Task {
    var name: string
    var duration: int
    var dependencies: seq<Task>

    /** A new task with the given name and duration and no dependencies. */
    constructor (name: string, duration: int)
      ensures this.name == name && this.duration == duration
      ensures dependencies == []
    {
      this.name := name;
      this.duration := duration;
      dependencies := [];
    }

    /** `Dependencies.AddRange(ds)`: appends the given tasks, in order. */
    method AddDependencies(ds: seq<Task>)
      modifies this`dependencies
      ensures dependencies == old(dependencies) + ds
    {
      dependencies := dependencies + ds;
    }

    /** `Dependencies.RemoveAll(t => t == a || t == b)`. */
    method RemoveDependencies(a: Task, b: Task)
      modifies this`dependencies
      ensures dependencies == Without(old(dependencies), a, b)
    {
      var ds := dependencies;
      var kept: seq<Task> := [];
      var i := 0;
      while i < |ds|
        invariant 0 <= i <= |ds|
        invariant kept == Without(ds[..i], a, b)
      {
        WithoutAppend(ds[..i], ds[i], a, b);
        assert ds[..i + 1] == ds[..i] + [ds[i]];
        if ds[i] != a && ds[i] != b {
          kept := kept + [ds[i]];
        }
        i := i + 1;
      }
      assert ds[..i] == ds;
      dependencies := kept;
    }
  }

  /** The tasks of `ds` other than `a` and `b`, in their original order. */
  function Without(ds: seq<Task>, a: Task, b: Task): (r: seq<Task>)
    ensures forall t :: t in r ==> t in ds && t != a && t != b
    ensures forall t :: t in ds && t != a && t != b ==> t in r
    ensures |r| <= |ds|
    ensures a !in ds && b !in ds ==> r == ds
    decreases |ds|
  {
    if ds == [] then []
    else if ds[0] == a || ds[0] == b then Without(ds[1..], a, b)
    else [ds[0]] + Without(ds[1..], a, b)
  }

  /** Without works element by element from the front, so it distributes over appending. */
  lemma {:induction false} WithoutAppend(ds: seq<Task>, t: Task, a: Task, b: Task)
    ensures Without(ds + [t], a, b) == Without(ds, a, b) + (if t == a || t == b then [] else [t])
    decreases |ds|
  {
    if ds != [] {
      assert (ds + [t])[1..] == ds[1..] + [t];
      WithoutAppend(ds[1..], t, a, b);
    }
  }
}
