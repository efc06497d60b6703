/** The values exchanged with the core's collaborators: what a data source
    hands back for a locator, and what a logger receives. The collaborators
    themselves are function parameters of the use case. */
module Ports {

  datatype Option<T> = None | Some(value: T)

  /** An input stream, reduced to the text it would deliver and whether it is
      in a readable state. */
  datatype Stream = Stream(content: string, good: bool)

  datatype Level = Trace | Debug | Info | Warn | Error

  datatype LogEntry = LogEntry(level: Level, message: string)
}
