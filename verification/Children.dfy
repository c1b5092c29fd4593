/** What a server thread shares with its child process: the entry of the process table (pmngr) and the data area. */
module Children {

  datatype Cmd = STOP | JOB

  /** Where a child process is in `pipeline_process`. */
  datatype ChildPc =
    | CWait            // sem_wait(sem_job)
    | CSwitch          // read cmd
    | CFetch           // data = shmem + cmd_offs
    | CAct             // pipeline_action(data, &status)
    | CSet             // cmd_result = status (0 for status -1)
    | CPost            // sem_post(sem_result), loop again
    | CQuitPost        // sem_post(sem_result) after status -1
    | CQuit            // left the loop because of status -1
    | CStopSet         // cmd_result = 0
    | CStopPost        // sem_post(sem_result) after STOP
    | CExited          // left the loop because of STOP

  /** A slot of the shared process table together with the local variables of its child. */
  datatype Slot = Slot(semJob: nat, semResult: nat, cmd: Cmd, offs: int, cmdResult: int,
                       child: ChildPc, data: int, status: int)

  /** The table entry as `process_info_init` leaves it: both semaphores 0. */
  const FRESH_SLOT := Slot(0, 0, STOP, 0, 0, CWait, 0, -1)

  function Read(mem: map<int, int>, offs: int): int {
    if offs in mem then mem[offs] else 0
  }

  ghost predicate Distinct(xs: seq<int>) {
    forall j, k :: 0 <= j < k < |xs| ==> xs[j] != xs[k]
  }

  lemma DistinctOnce(xs: seq<int>, x: int)
    requires Distinct(xs)
    ensures multiset(xs)[x] <= 1
  {
    if xs != [] {
      var rest := xs[..|xs| - 1];
      assert xs == rest + [xs[|xs| - 1]];
      DistinctOnce(rest, x);
      if multiset(rest)[x] > 0 {
        assert x in rest;
      }
    }
  }
}
