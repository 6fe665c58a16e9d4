/**
 * The in-memory process record: its identity, remaining time, size and
 * current lifecycle state, and the step that advances it by one transition.
 */
module Processes {
  import opened Wrappers
  import opened States
  import opened Partitions
  import Database

  class Process {
    var id: Option<int>
    var name: string
    var time: int
    var size: int
    var state: StateEnum

    /** `Process::new`: no id yet, and the state of a process waiting to be admitted. */
    constructor New(name: string, time: int, size: int)
      ensures id == None && this.name == name && this.time == time && this.size == size
      ensures state == Ready
    {
      id := None;
      this.name := name;
      this.time := time;
      this.size := size;
      state := Ready;
    }

    /**
     * `create_process_from_model`: copies the stored row and decodes its state
     * number; a number outside the four states is the decoder's panic.
     */
    constructor FromModel(row: Database.ProcessRow)
      requires StateFromNumber(row.state).Some?
      ensures id == Some(row.id) && name == row.name && time == row.time && size == row.size
      ensures StateNumber(state) == row.state
    {
      id := Some(row.id);
      name := row.name;
      time := row.time;
      size := row.size;
      state := StateFromNumber(row.state).value;
    }

    /**
     * `has_finished`: decided by the state alone. A finished process is at the
     * fixpoint of the lifecycle, so a further step leaves it as it is.
     */
    function HasFinished(): (r: bool)
      reads this
      ensures r <==> StateNumber(state) == StateNumber(Finished)
      ensures r ==> Transition(state, time) == Step(Finished, time, false)
    {
      state == Finished
    }

    /**
     * `process`: replaces the state by one transition of the current state and
     * stores the new remaining time. A running process whose time is used up
     * gives back its partition in the table `db` (the source unwraps the id there).
     */
    method Process(db: Database.Database)
      requires state == Running && time <= 0 ==> id.Some?
      modifies this, db
      ensures state == Transition(old(state), old(time)).next
      ensures time == Transition(old(state), old(time)).time
      ensures id == old(id) && name == old(name) && size == old(size)
      ensures Transition(old(state), old(time)).releases ==>
                db.partitions == Released(old(db.partitions), id.value)
                && AssignedPids(db.partitions) == AssignedPids(old(db.partitions)) - {id.value}
      ensures !Transition(old(state), old(time)).releases ==> db.partitions == old(db.partitions)
      ensures db.processes == old(db.processes) && db.compactionLog == old(db.compactionLog)
      ensures db.condensationLog == old(db.condensationLog)
      ensures old(db.Valid()) ==> db.Valid()
    {
      var current := state;
      match current
      case Ready =>
        time := Max0(time - Quantum);
        state := Running;
      case ReadyInPartition =>
        time := Max0(time - Quantum);
        state := Running;
      case Running =>
        if time > 0 {
          state := ReadyInPartition;
        } else {
          db.DeleteProcessPartitionWithProcessId(id.value);
          state := Finished;
        }
      case Finished =>
    }
  }
}
