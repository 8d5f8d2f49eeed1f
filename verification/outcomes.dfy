/** Values a handler produces: either a result or the Java exception the source
    would throw at that point. */
module Outcomes {

  datatype Option<+T> = None | Some(value: T)

  /** The exceptions raised along the command pipeline, one per Java class. */
  datatype Failure =
    | NoDescription           // NoDescriptionException: a required field is blank
    | Format                  // FormatException: a marker is missing, or an event ends before it starts
    | DateParse               // java.text.ParseException from the date parser
    | InvalidCommand          // InvalidCommandException: unknown keyword
    | IndexOutOfBounds        // IndexOutOfBoundsException thrown by the mark/unmark handlers
    | StringIndexOutOfBounds  // thrown by String.substring when begin > end
    | ArrayIndexOutOfBounds   // thrown by a store past the end of a Java array
    | NumberFormat            // NumberFormatException from Integer.parseInt

  /** Java's class hierarchy: the string and array variants extend
      IndexOutOfBoundsException, so a clause catching the general class catches all three. */
  const INDEX_OUT_OF_BOUNDS: set<Failure> := {IndexOutOfBounds, StringIndexOutOfBounds, ArrayIndexOutOfBounds}

  datatype Result<+T> = Ok(value: T) | Err(failure: Failure)
}
