/** Outcomes of the loader. Nothing in the bootstrap path is recovered: every
    detected fault is a single terminal halt of the process. */
module Faults {

  datatype Option<+T> = None | Some(value: T)

  /** Why the process halted. */
  datatype Fault =
    | QueryFailed(code: int)                // the memory query returned a non-zero result code
    | BadMagic(at: int)                     // the descriptor at `at` does not start with "MOD0"
    | BadPltRel(value: int)                 // DT_PLTREL names neither DT_REL nor DT_RELA
    | BadEntrySize(tag: int, value: int)    // DT_RELENT, DT_SYMENT or DT_RELAENT has the wrong size
    | Unmapped                              // an access outside mapped memory (a data abort)

  datatype Result<+T> = Ok(value: T) | Fatal(fault: Fault)

  /** The outcome of a state-changing step: it finished, or the process halted. */
  datatype Outcome = Success | Halt(fault: Fault)
}
