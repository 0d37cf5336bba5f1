/** What the routing decision reads of a request. */
module Requests {
  import opened Base

  /** A header is looked up as net/http does it, whatever the spelling; a missing one reads as the empty
      string. The client's address is what the proxy headers or the connection say it is. */
  datatype Request = Request(verb: string, host: string, path: string, header: string -> string, clientIP: string)

  /** The placeholder values of a request: None for a name that is not defined. */
  type Replacer = string -> Option<string>
}
