/**
 The elements of the ticket array the popup keeps between "analyze" and
 "push". They are whatever `JSON.parse` produced from the model's reply; the
 extension never checks their shape.
 */
module Tickets {
  import opened Wrappers

  /** A property read off a parsed element: missing (`undefined`), or present
      with the text JavaScript converts it to. */
  datatype Field = Undefined | Text(text: string)

  /** One element of the parsed array. `null` is kept apart because reading a
      property of it throws; every other element (an object, or a number,
      string or array whose properties read as `undefined`) behaves like a
      record of its `type`, `title` and `description` properties. */
  datatype Ticket = NullTicket | Ticket(kind: Field, title: Field, description: Field)

  /** `JSON.parse` applied to a text that starts with `[` and ends with `]`:
      either it throws (`None`) or it yields an array. */
  type Decoder = string -> Option<seq<Ticket>>

  /** The string `String(f)` gives, as used when a field is concatenated. */
  function FieldString(f: Field): string {
    match f
    case Undefined => "undefined"
    case Text(t) => t
  }
}
