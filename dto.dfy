/**
 * The body of an inbound webhook call and the declarative constraints the
 * request validator checks on it before the controller runs.
 */
module WebhookDto {
  import opened Wrappers

  datatype WebhookMessage = WebhookMessage(
    phone: string,
    name: string,
    message: string,
    timestamp: Option<string>)

  datatype Field = Phone | Name | Message | Timestamp

  /**
   * True when the body passes every constraint: phone, name and message are
   * non-empty strings, and a timestamp, when present, is a date string as
   * judged by `isDateString`.
   */
  predicate IsValid(dto: WebhookMessage, isDateString: string -> bool)
  {
    && dto.phone != ""
    && dto.name != ""
    && dto.message != ""
    && (dto.timestamp.Some? ==> isDateString(dto.timestamp.value))
  }

  /** The fields that fail their constraints, in declaration order. */
  function Violations(dto: WebhookMessage, isDateString: string -> bool): (fs: seq<Field>)
    ensures fs == [] <==> IsValid(dto, isDateString)
    ensures Phone in fs <==> dto.phone == ""
    ensures Name in fs <==> dto.name == ""
    ensures Message in fs <==> dto.message == ""
    ensures Timestamp in fs <==> dto.timestamp.Some? && !isDateString(dto.timestamp.value)
    ensures |fs| <= 4
  {
    (if dto.phone == "" then [Phone] else [])
    + (if dto.name == "" then [Name] else [])
    + (if dto.message == "" then [Message] else [])
    + (match dto.timestamp
       case Some(t) => if isDateString(t) then [] else [Timestamp]
       case None => [])
  }
}
