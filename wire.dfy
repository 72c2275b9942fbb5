/**
  What the script exchanges with the outside world. Every HTTP request it
  makes is recorded, in order, in a Network object; the responses it reads
  (status codes, the fetched rows, the index named by the alias) are given
  to the operations as inputs.
 */
module Wire {
  import opened Documents

  /** The exceptions the script can raise. */
  datatype Error =
    | IndexOutOfRange         // `version[1]` on a version without a '.'
    | ZeroDivision            // `counter % batch_size` with a batch size of 0
    | BadStatus(code: int)    // a search-engine response whose status is not 200

  datatype Result<T> = Ok(value: T) | Err(error: Error)

  datatype Option<T> = None | Some(value: T)

  /** One entry of the `actions` list posted to `_aliases`. */
  datatype AliasAction =
    | Add(index: string, alias: string)
    | RemoveIndex(index: string)

  datatype Request =
    | FetchOverview                           // GET the hosts overview report
    | BulkPost(body: seq<BulkLine>)           // POST {host_url}/_bulk
    | AliasGet(alias: string)                 // GET {host_url}/_alias/{alias}
    | AliasesPost(actions: seq<AliasAction>)  // POST {host_url}/_aliases

  /** The requests sent so far, oldest first. */
  class Network {
    var requests: seq<Request>

    constructor ()
      ensures requests == []
    {
      requests := [];
    }

    method Send(r: Request)
      modifies this
      ensures requests == old(requests) + [r]
    {
      requests := requests + [r];
    }
  }
}
