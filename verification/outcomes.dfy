/** The .NET exceptions the modelled code can raise, and values that carry either a result or
    one of them. Every exception here is fatal for the conversion run. */
module Outcomes {

  datatype Option<+T> = None | Some(value: T)

  datatype Exception =
    | ArgumentOutOfRange   // String.Substring with a start or length outside the string
    | Format               // DateTime.Parse / TimeSpan.Parse on text they cannot read
    | Overflow             // TimeSpan.Parse on a component or a value out of range
    | NullReference        // a member access on a null node or attribute
    | ArgumentNull         // new StreamReader(null) when an embedded resource is missing
    | NotAChild            // XmlNode.ReplaceChild with a node that is not a child

  /** The outcome of a call that returns a value or throws. */
  datatype Outcome<+T> = Returns(value: T) | Throws(exception: Exception)

  /** The outcome of a call that returns nothing. */
  datatype Completion = Normal | Abrupt(exception: Exception)
}
