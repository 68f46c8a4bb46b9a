/** The validated value types a member is built from. Each wraps the text it
    was parsed from; equality is by value, as in the Java classes. The format
    rules that decide which texts are valid belong to the field parsers (see
    `EditCommandParser.FieldParsers`), not to these types. */
module Fields {

  /** A member's unique numeric identifier, kept as its text. */
  datatype Id = Id(text: string)

  datatype Name = Name(text: string)

  datatype Phone = Phone(text: string)

  datatype Email = Email(text: string)

  datatype Address = Address(text: string)

  /** The registration timestamp, set when the member is created. */
  datatype Timestamp = Timestamp(text: string)

  /** A tag label. */
  datatype Tag = Tag(text: string)

  /** A transaction, with the whole-number amount its value truncates to. */
  datatype Transaction = Transaction(text: string, amount: int)

  datatype Reservation = Reservation(text: string)

  /** A member's credit balance. */
  datatype Credit = Credit(value: int)

  /** `Credit.MAX`, the cap on a recomputed credit. The Credit class is not
      part of this model, so the constant is left unspecified: every proof
      here holds whatever its value is. */
  const CreditMax: int
}
