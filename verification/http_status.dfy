/**
 * HttpStatus.GetStatusDescription: the reason phrase of a status code, read
 * from a jagged table with one row per hundred (row 0 is null and never
 * read). Codes outside [100, 600), codes past the end of their row and the
 * unassigned codes 306, 418-421 and 506 give the empty string.
 */
module HttpStatus {

  import opened Wrappers

  /** The rows of Descriptions; `None` is the null row 0. */
  const Descriptions: seq<Option<seq<string>>> := [
    None,
    Some(["Continue", "Switching Protocols", "Processing"]),
    Some(["OK", "Created", "Accepted", "Non-Authoritative Information", "No Content",
          "Reset Content", "Partial Content", "Multi-Status"]),
    Some(["Multiple Choices", "Moved Permanently", "Found", "See Other", "Not Modified",
          "Use Proxy", "", "Temporary Redirect"]),
    Some(["Bad Request", "Unauthorized", "Payment Required", "Forbidden", "Not Found",
          "Method Not Allowed", "Not Acceptable", "Proxy Authentication Required",
          "Request Timeout", "Conflict", "Gone", "Length Required", "Precondition Failed",
          "Request Entity Too Large", "Request-Uri Too Long", "Unsupported Media Type",
          "Requested Range Not Satisfiable", "Expectation Failed", "", "", "", "",
          "Unprocessable Entity", "Locked", "Failed Dependency"]),
    Some(["Internal Server Error", "Not Implemented", "Bad Gateway", "Service Unavailable",
          "Gateway Timeout", "Http Version Not Supported", "", "Insufficient Storage"])
  ]

  /**
   * HttpStatus.GetStatusDescription(statusCode). Inside [100, 600) the code
   * is positive, so C#'s truncating `/` and `%` agree with Dafny's.
   */
  function GetStatusDescription(statusCode: int): (r: string)
    ensures r != "" ==> 100 <= statusCode < 600
  {
    if 100 <= statusCode < 600 then
      var i := statusCode / 100;
      var j := statusCode % 100;
      var row := Descriptions[i].value;
      if j < |row| then row[j] else ""
    else ""
  }

  /**
   * The assigned codes listed one by one with their phrases, grouped by
   * class; `None` for every code without a phrase.
   */
  function Registered(statusCode: int): Option<string>
  {
    if statusCode < 200 then
      if statusCode == 100 then Some("Continue") else
      if statusCode == 101 then Some("Switching Protocols") else
      if statusCode == 102 then Some("Processing") else
      None
    else
    if statusCode < 300 then
      if statusCode == 200 then Some("OK") else
      if statusCode == 201 then Some("Created") else
      if statusCode == 202 then Some("Accepted") else
      if statusCode == 203 then Some("Non-Authoritative Information") else
      if statusCode == 204 then Some("No Content") else
      if statusCode == 205 then Some("Reset Content") else
      if statusCode == 206 then Some("Partial Content") else
      if statusCode == 207 then Some("Multi-Status") else
      None
    else
    if statusCode < 400 then
      if statusCode == 300 then Some("Multiple Choices") else
      if statusCode == 301 then Some("Moved Permanently") else
      if statusCode == 302 then Some("Found") else
      if statusCode == 303 then Some("See Other") else
      if statusCode == 304 then Some("Not Modified") else
      if statusCode == 305 then Some("Use Proxy") else
      if statusCode == 307 then Some("Temporary Redirect") else
      None
    else
    if statusCode < 500 then
      if statusCode == 400 then Some("Bad Request") else
      if statusCode == 401 then Some("Unauthorized") else
      if statusCode == 402 then Some("Payment Required") else
      if statusCode == 403 then Some("Forbidden") else
      if statusCode == 404 then Some("Not Found") else
      if statusCode == 405 then Some("Method Not Allowed") else
      if statusCode == 406 then Some("Not Acceptable") else
      if statusCode == 407 then Some("Proxy Authentication Required") else
      if statusCode == 408 then Some("Request Timeout") else
      if statusCode == 409 then Some("Conflict") else
      if statusCode == 410 then Some("Gone") else
      if statusCode == 411 then Some("Length Required") else
      if statusCode == 412 then Some("Precondition Failed") else
      if statusCode == 413 then Some("Request Entity Too Large") else
      if statusCode == 414 then Some("Request-Uri Too Long") else
      if statusCode == 415 then Some("Unsupported Media Type") else
      if statusCode == 416 then Some("Requested Range Not Satisfiable") else
      if statusCode == 417 then Some("Expectation Failed") else
      if statusCode == 422 then Some("Unprocessable Entity") else
      if statusCode == 423 then Some("Locked") else
      if statusCode == 424 then Some("Failed Dependency") else
      None
    else
    if statusCode < 600 then
      if statusCode == 500 then Some("Internal Server Error") else
      if statusCode == 501 then Some("Not Implemented") else
      if statusCode == 502 then Some("Bad Gateway") else
      if statusCode == 503 then Some("Service Unavailable") else
      if statusCode == 504 then Some("Gateway Timeout") else
      if statusCode == 505 then Some("Http Version Not Supported") else
      if statusCode == 507 then Some("Insufficient Storage") else
      None
    else
    None
  }

  /** Every code is described by its listed phrase, and every unlisted code by the empty string. */
  lemma GetStatusDescriptionRegistered(statusCode: int)
    ensures GetStatusDescription(statusCode)
      == if Registered(statusCode).Some? then Registered(statusCode).value else ""
  {
    if 100 <= statusCode < 200 {
      Codes100(statusCode);
    } else if 200 <= statusCode < 300 {
      Codes200(statusCode);
    } else if 300 <= statusCode < 400 {
      Codes300(statusCode);
    } else if 400 <= statusCode < 408 {
      Codes400(statusCode);
    } else if 408 <= statusCode < 416 {
      Codes408(statusCode);
    } else if 416 <= statusCode < 425 {
      Codes416(statusCode);
    } else if 425 <= statusCode < 500 {
      Codes425(statusCode);
    } else if 500 <= statusCode < 504 {
      Codes500(statusCode);
    } else if 504 <= statusCode < 600 {
      Codes504(statusCode);
    }
  }

  lemma Codes100(statusCode: int)
    requires 100 <= statusCode < 200
    ensures GetStatusDescription(statusCode)
      == if Registered(statusCode).Some? then Registered(statusCode).value else ""
  {
    assert statusCode / 100 == 1 && statusCode % 100 == statusCode - 100;
  }

  lemma Codes200(statusCode: int)
    requires 200 <= statusCode < 300
    ensures GetStatusDescription(statusCode)
      == if Registered(statusCode).Some? then Registered(statusCode).value else ""
  {
    assert statusCode / 100 == 2 && statusCode % 100 == statusCode - 200;
  }

  lemma Codes300(statusCode: int)
    requires 300 <= statusCode < 400
    ensures GetStatusDescription(statusCode)
      == if Registered(statusCode).Some? then Registered(statusCode).value else ""
  {
    assert statusCode / 100 == 3 && statusCode % 100 == statusCode - 300;
  }

  lemma Codes400(statusCode: int)
    requires 400 <= statusCode < 408
    ensures GetStatusDescription(statusCode)
      == if Registered(statusCode).Some? then Registered(statusCode).value else ""
  {
    assert statusCode / 100 == 4 && statusCode % 100 == statusCode - 400;
  }

  lemma Codes408(statusCode: int)
    requires 408 <= statusCode < 416
    ensures GetStatusDescription(statusCode)
      == if Registered(statusCode).Some? then Registered(statusCode).value else ""
  {
    assert statusCode / 100 == 4 && statusCode % 100 == statusCode - 400;
  }

  lemma Codes416(statusCode: int)
    requires 416 <= statusCode < 425
    ensures GetStatusDescription(statusCode)
      == if Registered(statusCode).Some? then Registered(statusCode).value else ""
  {
    assert statusCode / 100 == 4 && statusCode % 100 == statusCode - 400;
  }

  lemma Codes425(statusCode: int)
    requires 425 <= statusCode < 500
    ensures GetStatusDescription(statusCode)
      == if Registered(statusCode).Some? then Registered(statusCode).value else ""
  {
    assert statusCode / 100 == 4 && statusCode % 100 == statusCode - 400;
  }

  lemma Codes500(statusCode: int)
    requires 500 <= statusCode < 504
    ensures GetStatusDescription(statusCode)
      == if Registered(statusCode).Some? then Registered(statusCode).value else ""
  {
    assert statusCode / 100 == 5 && statusCode % 100 == statusCode - 500;
  }

  lemma Codes504(statusCode: int)
    requires 504 <= statusCode < 600
    ensures GetStatusDescription(statusCode)
      == if Registered(statusCode).Some? then Registered(statusCode).value else ""
  {
    assert statusCode / 100 == 5 && statusCode % 100 == statusCode - 500;
  }

  /** A description is empty exactly when the code has no listed phrase. */
  lemma DescribedExactlyWhenRegistered(statusCode: int)
    ensures GetStatusDescription(statusCode) != "" <==> Registered(statusCode).Some?
    ensures GetStatusDescription(statusCode) != "" ==> 100 <= statusCode < 600
  {
    GetStatusDescriptionRegistered(statusCode);
  }

  /** 404 is "Not Found"; the unassigned 306, and 600 and 99 outside the table, are empty. */
  lemma Examples()
    ensures GetStatusDescription(404) == "Not Found"
    ensures GetStatusDescription(306) == ""
    ensures GetStatusDescription(600) == "" && GetStatusDescription(99) == ""
  {
  }
}
