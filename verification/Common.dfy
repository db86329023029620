/** Result types shared by the kernel modules. */
module Common {

  datatype Option<+T> = None | Some(value: T)

  /** The reasons for which the machine stops: the panics of the code, and the page fault. */
  datatype PanicReason = OutOfMemory | TooManyPages | KernelTooBig | PageFault

  /** A kernel call either returns or panics; a panic halts the machine. */
  datatype Outcome<+T> = Ret(value: T) | Panic(why: PanicReason)
}
