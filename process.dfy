/**
 * How a run of the tool ends, in place of the real process: `process.exit(n)`
 * becomes `Exited(n)`, an exception that leaves a task becomes `Threw(name)`,
 * and a task that simply finishes is `Returned`.
 */
module Process {

  datatype Termination = Returned | Exited(status: int) | Threw(error: string)

  /** A step of a flow: either it yields a value for the next step, or the run ends here. */
  datatype Step<+T> = Continue(value: T) | Stop(end: Termination)

  /** The name of the error the prompt library raises when the user interrupts a prompt. */
  const PromptExitError := "ExitPromptError"
}
