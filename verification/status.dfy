/** `checkStatusCode`: the HTTP status of the API response decides between
    decoding the body and printing an error line. The exception the Kotlin code
    throws becomes a `Failed` value carrying its message. */
module Status {
  import opened Wrappers
  import opened Decimal
  import opened KotlinInt
  import opened Listing

  datatype StatusCheck = Successful | Failed(message: string)

  const NotFoundMessage: string := "Repo not found"
  const ServerErrorMessage: string := "Internal server error"
  // Written as two literals: the verifier reads characters out of short literals only.
  const UnknownErrorPrefix: string := "Unknown error while retrieving. " + "Http status code "

  lemma MessageTextsAreSingleLine()
    ensures IsSingleLine(NotFoundMessage) && IsSingleLine(ServerErrorMessage) && IsSingleLine(UnknownErrorPrefix)
  {
    assert IsSingleLine("Unknown error while retrieving. ") && IsSingleLine("Http status code ");
  }

  /** The message for a status code with no message of its own: the fixed
      prefix followed by the code in decimal, which can be read back. */
  function UnknownErrorMessage(code: int): (m: string)
    ensures UnknownErrorPrefix <= m
    ensures ParseInt(m[|UnknownErrorPrefix|..]) == Some(code)
    ensures IsSingleLine(m)
  {
    var digits := IntToString(code);
    IntToStringRoundTrip(code);
    MessageTextsAreSingleLine();
    assert (UnknownErrorPrefix + digits)[|UnknownErrorPrefix|..] == digits;
    assert IsSingleLine(digits);
    UnknownErrorPrefix + digits
  }

  function CheckStatusCode(code: Int32): (r: StatusCheck)
    ensures r.Successful? <==> 200 <= code <= 299
    ensures code == 404 ==> r == Failed(NotFoundMessage)
    ensures code == 500 ==> r == Failed(ServerErrorMessage)
    ensures r.Failed? && code != 404 && code != 500 ==>
              UnknownErrorPrefix <= r.message && ParseInt(r.message[|UnknownErrorPrefix|..]) == Some(code as int)
    ensures r.Failed? ==> |r.message| > 0 && IsSingleLine(r.message)
  {
    if 200 <= code <= 299 then Successful
    else if code == 404 then MessageTextsAreSingleLine(); Failed(NotFoundMessage)
    else if code == 500 then MessageTextsAreSingleLine(); Failed(ServerErrorMessage)
    else Failed(UnknownErrorMessage(code))
  }

  /** Reads back the status code a failure message reports. */
  function CodeOfFailure(message: string): Option<int> {
    if message == NotFoundMessage then Some(404)
    else if message == ServerErrorMessage then Some(500)
    else if UnknownErrorPrefix <= message then ParseInt(message[|UnknownErrorPrefix|..])
    else None
  }

  /** Every failure message names the status code that produced it. */
  lemma FailureMessageNamesCode(code: Int32)
    requires CheckStatusCode(code).Failed?
    ensures CodeOfFailure(CheckStatusCode(code).message) == Some(code as int)
  {
  }

  /** Distinct failing codes never print the same message. */
  lemma FailureMessagesDistinct(c1: Int32, c2: Int32)
    requires CheckStatusCode(c1).Failed? && CheckStatusCode(c2).Failed?
    requires CheckStatusCode(c1).message == CheckStatusCode(c2).message
    ensures c1 == c2
  {
    FailureMessageNamesCode(c1);
    FailureMessageNamesCode(c2);
  }
}
