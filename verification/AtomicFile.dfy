/**
 The stores' way of writing: the JSON text of a value goes to a temporary file, which then replaces
 the real one. A write can fail or the process can die at any step. JSON is a codec that reads back
 what it wrote, and a rename is atomic and durable.
 */
module AtomicFiles {
  import opened Outcomes

  // ---- the file and its temporary sibling ----

  /** The bytes of a file: the JSON text of a value, or something that does not parse. */
  datatype Bytes<+T> = Encoded(value: T) | Torn

  datatype WriteStep = MakeDir | CreateTemp | WriteAll | Flush | Sync | Rename

  /** What goes wrong in one write: nothing, an error from a step, or the death of the process
      before a step, in the middle of writing the temporary file, or right after the rename. */
  datatype Fault = NoFault | ErrorAt(step: WriteStep) | DiesBefore(step: WriteStep) | DiesWriting | DiesAfterRename

  datatype WriteOutcome = Written | Failed | Died

  function OutcomeOf(fault: Fault): WriteOutcome {
    match fault
    case NoFault => Written
    case ErrorAt(_) => Failed
    case _ => Died
  }

  /** Whether the rename took place. */
  predicate Replaces(fault: Fault) {
    fault.NoFault? || fault.DiesAfterRename?
  }

  class Directory<T> {
    var file: Option<Bytes<T>>
    var temp: Option<Bytes<T>>

    constructor ()
      ensures file == None && temp == None
    {
      file, temp := None, None;
    }

    /** `atomic_write_json`: whatever happens, the file is the old one or the new one. */
    method AtomicWrite(value: T, fault: Fault) returns (o: WriteOutcome)
      modifies this
      ensures o == OutcomeOf(fault)
      ensures file == if Replaces(fault) then Some(Encoded(value)) else old(file)
      ensures Replaces(fault) || fault == ErrorAt(Rename) ==> temp == None
    {
      ghost var step := if fault.ErrorAt? || fault.DiesBefore? then fault.step else MakeDir;
      assert step == MakeDir || step == CreateTemp || step == WriteAll || step == Flush || step == Sync || step == Rename;
      if fault == DiesBefore(MakeDir) { return Died; }
      if fault == ErrorAt(MakeDir) { return Failed; }
      if fault == DiesBefore(CreateTemp) { return Died; }
      if fault == ErrorAt(CreateTemp) { return Failed; }
      temp := Some(Torn);
      if fault == DiesBefore(WriteAll) || fault == DiesWriting { return Died; }
      if fault == ErrorAt(WriteAll) { return Failed; }
      temp := Some(Encoded(value));
      if fault == DiesBefore(Flush) { return Died; }
      if fault == ErrorAt(Flush) { return Failed; }
      if fault == DiesBefore(Sync) { return Died; }
      if fault == ErrorAt(Sync) { return Failed; }
      if fault == DiesBefore(Rename) { return Died; }
      if fault == ErrorAt(Rename) {
        temp := None;
        return Failed;
      }
      file, temp := temp, None;
      if fault == DiesAfterRename { return Died; }
      return Written;
    }
  }
}
