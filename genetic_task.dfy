/** The task record of the genetic scheduler: like the annealing task, plus the
    processor a candidate solution assigns it to, which the algorithm overwrites. */
module GeneticTask {

  class Task {
    var name: string
    var duration: int
    var dependencies: seq<Task>
    var processor: int

    /** A new task with no dependencies, assigned to processor 0. */
    constructor (name: string, duration: int)
      ensures this.name == name && this.duration == duration
      ensures dependencies == [] && processor == 0
    {
      this.name := name;
      this.duration := duration;
      dependencies := [];
      processor := 0;
    }
  }
}
