/** The protocol values the core reads and produces, reduced to plain records. */
module LspTypes {
  import opened Wrappers

  /** One colour channel as the byte the hex literal spells; the server sends it as `byte / 255.0`. */
  type Channel = x: int | 0 <= x < 256

  datatype Color = Color(red: Channel, green: Channel, blue: Channel, alpha: Channel)

  /** A zero-based line and column; which unit the column counts is up to the producer. */
  datatype Position = Position(line: nat, character: nat)

  /** A half-open region from `start` to `end`. */
  datatype Range = Range(start: Position, end: Position)

  datatype ColorInformation = ColorInformation(range: Range, color: Color)

  /** An editor change: a full replacement when `range` is None, otherwise a range replacement. */
  datatype ContentChange = ContentChange(range: Option<Range>, text: string)
}
