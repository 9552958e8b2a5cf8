/** Kernel-mode threads (`svc_thread`): the heap record and the value it stands for. */
module Threads {

  datatype Status = Runnable | Waiting | WaitingFor

  /** The scheduling fields of one thread, read off the heap at one moment. */
  datatype Tcb = Tcb(id: SvcThread, main: bool, status: Status, waiting: nat, target: SvcThread?)

  class SvcThread {
    var main: bool
    var status: Status
    var waiting: nat
    var statusData: SvcThread?
    var next: SvcThread?

    /** A new thread is no main thread, runnable, waits for nothing and is in no list. */
    constructor ()
      ensures Read(this) == NewTcb(this) && next == null
    {
      main := false;
      status := Runnable;
      statusData := null;
      waiting := 0;
      next := null;
    }
  }

  function Read(t: SvcThread): Tcb
    reads t
  {
    Tcb(t, t.main, t.status, t.waiting, t.statusData)
  }

  function NewTcb(t: SvcThread): Tcb {
    Tcb(t, false, Runnable, 0, null)
  }
}
