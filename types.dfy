/** Values shared by the stream aggregator, the citation annotator and the trace step grouper. */
module Types {

  datatype Option<T> = None | Some(value: T)

  /** One retrieved reference of a citation; only its S3 location URI is used. */
  datatype Reference = Reference(uri: string)

  /**
   * An attribution citation: the `end` of the span of generated text it backs
   * (an offset into the final text as the agent service counts it) and the
   * documents retrieved for that span, in the service's order.
   */
  datatype Citation = Citation(spanEnd: int, references: seq<Reference>)

  /**
   * A trace record as far as the front end looks into it: its own top-level
   * `traceId`, if it has one, and for every sub-field it carries (such as
   * `rationale` or `modelInvocationInput`) that sub-field's `traceId`, if it
   * has one. Everything else in the record is opaque.
   */
  datatype Record = Record(traceId: Option<string>, parts: map<string, Option<string>>)
}
